/** Properties relating the account handlers to each other and to the store's
    integrity: what a purchase keeps, what it enables, and what repeating it does. */
module AccountProperties {
  import opened Wrappers
  import opened Seqs
  import opened Store
  import opened Account

  /** Calling `get_user` twice is the same as calling it once, and it leaves
      exactly one record for the caller and no other new record. */
  lemma GetUserIdempotent(s: State, tid: TelegramId)
    ensures var (v, s1) := GetUser(s, tid);
      && GetUser(s1, tid) == (v, s1)
      && s1.users.Keys == s.users.Keys + {tid}
  {
  }

  /** `get_user` keeps the store's integrity. */
  lemma GetUserPreservesValid(s: State, tid: TelegramId)
    requires Valid(s)
    ensures Valid(GetUser(s, tid).1)
  {
  }

  /** Every balance is non-negative. */
  predicate BalancesNonNegative(s: State) {
    forall t :: t in s.users ==> s.users[t].stars >= 0
  }

  /** A purchase keeps the store's integrity: ids still resolve and no paper
      is held twice. */
  lemma PurchasePreservesValid(s: State, tid: TelegramId, pid: PaperId)
    requires Valid(s)
    ensures Valid(Purchase(s, tid, pid).1)
  {
  }

  /** A purchase never makes any balance in the store negative. */
  lemma PurchasePreservesBalances(s: State, tid: TelegramId, pid: PaperId)
    requires BalancesNonNegative(s)
    ensures BalancesNonNegative(Purchase(s, tid, pid).1)
  {
  }

  /** Once a purchase has gone through, repeating it is refused and changes nothing:
      the price is debited exactly once. */
  lemma RepeatPurchaseRefused(s: State, tid: TelegramId, pid: PaperId)
    requires Purchase(s, tid, pid).0 == Purchased
    ensures var s1 := Purchase(s, tid, pid).1;
      && Purchase(s1, tid, pid) == (AlreadyPurchased, s1)
      && s1.users[tid].stars == s.users[tid].stars - FindPaper(s.catalog, pid).value.price
  {
  }

  /** The stars a user holds plus what their papers cost at current prices is
      the same before and after any purchase. */
  lemma PurchaseConservesValue(s: State, tid: TelegramId, pid: PaperId)
    requires tid in s.users
    ensures var s1 := Purchase(s, tid, pid).1;
      && tid in s1.users
      && s1.users[tid].stars + TotalPrice(PurchasedPapers(s1, tid))
         == s.users[tid].stars + TotalPrice(PurchasedPapers(s, tid))
  {
    var (reply, s1) := Purchase(s, tid, pid);
    if reply.Purchased? {
      var p := FindPaper(s.catalog, pid).value;
      ResolveAppend(s.catalog, s.users[tid].purchased, pid);
      TotalPriceAppend(PurchasedPapers(s, tid), p);
    }
  }

  /** After a purchase goes through, the paper can be requested, and it is the
      newest entry of the purchase history. */
  lemma PurchaseGrantsAccess(s: State, tid: TelegramId, pid: PaperId)
    requires Purchase(s, tid, pid).0 == Purchased
    ensures var s1 := Purchase(s, tid, pid).1;
      var h := PurchaseHistory(s1, tid);
      && RequestPaper(s1, tid, pid) == Granted
      && |h| > 0
      && h[|h| - 1] == EntryOf(FindPaper(s.catalog, pid).value)
  {
    var s1 := Purchase(s, tid, pid).1;
    ResolveAppend(s.catalog, s.users[tid].purchased, pid);
    assert PurchasedPapers(s1, tid) == PurchasedPapers(s, tid) + [FindPaper(s.catalog, pid).value];
  }

  /** `request_paper` and `purchase_paper` agree on ownership: access is granted
      exactly when a purchase would be refused as a repeat, and both report a
      missing user or paper alike. */
  lemma AccessAgreesWithPurchase(s: State, tid: TelegramId, pid: PaperId)
    ensures RequestPaper(s, tid, pid).Granted? <==> Purchase(s, tid, pid).0.AlreadyPurchased?
    ensures RequestPaper(s, tid, pid).AccessNotFound? <==> Purchase(s, tid, pid).0.PurchaseNotFound?
  {
  }

  /** A user with 5 stars asking for a paper priced 10 is told to pay the full
      price of 10, and nothing changes; after topping up to 10 stars the same
      request goes through and leaves a balance of 0. */
  lemma ShortfallThenTopUp()
    ensures var paper := Paper(7, "CSE", "3", "2022", "Data Structures", 10);
      var before := State([paper], map[42 := User(5, [])]);
      var toppedUp := State([paper], map[42 := User(10, [])]);
      && Purchase(before, 42, 7) == (PaymentRequired(10), before)
      && Purchase(toppedUp, 42, 7) == (Purchased, State([paper], map[42 := User(0, [7])]))
      && RequestPaper(toppedUp, 42, 7) == NotPurchased
  {
    var paper := Paper(7, "CSE", "3", "2022", "Data Structures", 10);
    assert FindPaper([paper], 7) == Some(paper);
    var seven: seq<PaperId> := [7];
    assert [] + seven == seven;
    assert map[42 := User(10, [])][42 := User(0, [] + seven)] == map[42 := User(0, seven)];
  }

  /** The reply fields of `purchase_paper`: `success` holds exactly when user and
      paper exist and the paper is not yet owned; `requiresPayment` is true
      exactly when, in addition, the balance is below the price; each failure
      carries its message and no `requiresPayment`. */
  lemma PurchaseReplyFields(s: State, tid: TelegramId, pid: PaperId)
    ensures var reply := Purchase(s, tid, pid).0;
      && (reply.Success() <==>
            tid in s.users && FindPaper(s.catalog, pid).Some? && pid !in s.users[tid].purchased)
      && (reply.RequiresPayment() == Some(true) <==>
            && tid in s.users && FindPaper(s.catalog, pid).Some? && pid !in s.users[tid].purchased
            && s.users[tid].stars < FindPaper(s.catalog, pid).value.price)
      && (reply.RequiresPayment() == Some(false) <==> reply.Purchased?)
      && (!reply.Success() <==> reply.Message().Some?)
      && (!reply.Success() ==> reply.RequiresPayment().None?)
      && (tid !in s.users || FindPaper(s.catalog, pid).None? ==> reply.Message() == Some(MsgNotFound))
      && (tid in s.users && FindPaper(s.catalog, pid).Some? && pid in s.users[tid].purchased ==>
            reply.Message() == Some(MsgAlreadyPurchased))
  {
  }

  /** The reply fields of `request_paper`: `success` holds exactly when user and
      paper exist and the paper is owned; otherwise the message says which check
      failed. */
  lemma AccessReplyFields(s: State, tid: TelegramId, pid: PaperId)
    ensures var reply := RequestPaper(s, tid, pid);
      && (reply.Success() <==>
            tid in s.users && FindPaper(s.catalog, pid).Some? && pid in s.users[tid].purchased)
      && (!reply.Success() <==> reply.Message().Some?)
      && (tid !in s.users || FindPaper(s.catalog, pid).None? ==> reply.Message() == Some(MsgNotFound))
      && (tid in s.users && FindPaper(s.catalog, pid).Some? && pid !in s.users[tid].purchased ==>
            reply.Message() == Some(MsgNotPurchased))
  {
  }
}
