/** The authenticated account handlers of api.py as pure transitions over the
    store: get-or-create (api.py:34-56), purchase (api.py:109-141), purchase
    history (api.py:156-179), profile statistics (api.py:181-212) and the
    paper-access check (api.py:214-233).  Each takes the caller's
    `telegram_id` as already established by the init-data guard. */
module Account {
  import opened Wrappers
  import opened Seqs
  import opened Store

  // ---- GET /api/user ----

  /** `{id, stars}` of the reply; `first_name` is echoed from the request and not stored. */
  datatype UserView = UserView(id: TelegramId, stars: int)

  /** `get_user`: the caller's row, created with zero stars and no purchases when absent. */
  function GetUser(s: State, tid: TelegramId): (res: (UserView, State))
    ensures tid in res.1.users
    ensures res.0 == UserView(tid, res.1.users[tid].stars)
    ensures tid in s.users ==> res.1 == s
    ensures tid !in s.users ==> res.1 == s.(users := s.users[tid := User(0, [])])
  {
    if tid in s.users then (UserView(tid, s.users[tid].stars), s)
    else
      var s' := s.(users := s.users[tid := User(0, [])]);
      (UserView(tid, 0), s')
  }

  // ---- POST /api/purchase ----

  const MsgNotFound: string := "User or paper not found"
  const MsgAlreadyPurchased: string := "You have already purchased this paper"
  const MsgNotPurchased: string := "You have not purchased this paper"

  /** The four answers of `purchase_paper`. */
  datatype PurchaseReply =
    | PurchaseNotFound
    | AlreadyPurchased
    | Purchased
    | PaymentRequired(requiredStars: int)
  {
    /** The `success` field. */
    predicate Success() {
      Purchased? || PaymentRequired?
    }

    /** The `message` field, present on the two failures. */
    function Message(): Option<string> {
      match this
      case PurchaseNotFound => Some(MsgNotFound)
      case AlreadyPurchased => Some(MsgAlreadyPurchased)
      case _ => None
    }

    /** The `requiresPayment` field, present on the two successes. */
    function RequiresPayment(): Option<bool> {
      match this
      case Purchased => Some(false)
      case PaymentRequired(_) => Some(true)
      case _ => None
    }
  }

  /** `purchase_paper(paperId)` for the caller `tid`.  Only a purchase the
      balance covers changes the store: it debits the price and appends the
      paper.  When the balance falls short, `requiredStars` is the full price. */
  function Purchase(s: State, tid: TelegramId, pid: PaperId): (res: (PurchaseReply, State))
    ensures res.0.PurchaseNotFound? <==> tid !in s.users || FindPaper(s.catalog, pid).None?
    ensures res.0.AlreadyPurchased? <==>
      tid in s.users && FindPaper(s.catalog, pid).Some? && pid in s.users[tid].purchased
    ensures !res.0.Purchased? ==> res.1 == s
    ensures res.0.Purchased? ==>
      && tid in s.users && FindPaper(s.catalog, pid).Some?
      && var u, p := s.users[tid], FindPaper(s.catalog, pid).value;
      && pid !in u.purchased
      && u.stars >= p.price
      && res.1.catalog == s.catalog
      && res.1.users.Keys == s.users.Keys
      && res.1.users[tid] == User(u.stars - p.price, u.purchased + [pid])
      && res.1.users[tid].stars >= 0
      && (forall t :: t in s.users && t != tid ==> res.1.users[t] == s.users[t])
    ensures res.0.PaymentRequired? ==>
      && tid in s.users && FindPaper(s.catalog, pid).Some?
      && var u, p := s.users[tid], FindPaper(s.catalog, pid).value;
      && pid !in u.purchased
      && u.stars < p.price
      && res.0.requiredStars == p.price
  {
    if tid !in s.users then (PurchaseNotFound, s)
    else match FindPaper(s.catalog, pid)
      case None => (PurchaseNotFound, s)
      case Some(p) =>
        var u := s.users[tid];
        if pid in u.purchased then (AlreadyPurchased, s)
        else if u.stars >= p.price then
          (Purchased, s.(users := s.users[tid := User(u.stars - p.price, u.purchased + [pid])]))
        else (PaymentRequired(p.price), s)
  }

  // ---- GET /api/purchase-history ----

  /** One entry of the history; `purchase_date` is not modelled. */
  datatype HistoryEntry = HistoryEntry(paperId: PaperId, name: string, department: string,
                                       semester: string, year: string)

  const HistoryLimit: nat := 10

  function EntryOf(p: Paper): HistoryEntry {
    HistoryEntry(p.id, p.name, p.department, p.semester, p.year)
  }

  /** `get_purchase_history`: the last ten purchased papers, oldest of them first;
      an unknown caller gets an empty list. */
  function PurchaseHistory(s: State, tid: TelegramId): (r: seq<HistoryEntry>)
    ensures tid !in s.users ==> r == []
    ensures |r| <= HistoryLimit
    ensures tid in s.users ==>
      var pp := PurchasedPapers(s, tid);
      && |r| == (if |pp| < HistoryLimit then |pp| else HistoryLimit)
      && forall i :: 0 <= i < |r| ==> r[i] == EntryOf(pp[|pp| - |r| + i])
  {
    if tid !in s.users then []
    else
      var recent := Tail(PurchasedPapers(s, tid), HistoryLimit);
      seq(|recent|, i requires 0 <= i < |recent| => EntryOf(recent[i]))
  }

  // ---- GET /api/profile ----

  datatype Profile = Profile(totalPapers: nat, totalSpent: int, departmentStats: map<string, nat>)

  /** Sum of the current catalog prices of `papers`. */
  function TotalPrice(papers: seq<Paper>): (t: int)
    ensures (forall p :: p in papers ==> p.price >= 0) ==> t >= 0
    ensures (forall p :: p in papers ==> p.price >= 0) ==> forall p :: p in papers ==> p.price <= t
  {
    if |papers| == 0 then 0 else papers[0].price + TotalPrice(papers[1..])
  }

  lemma {:induction false} TotalPriceAppend(papers: seq<Paper>, p: Paper)
    ensures TotalPrice(papers + [p]) == TotalPrice(papers) + p.price
  {
    if |papers| > 0 {
      assert (papers + [p])[1..] == papers[1..] + [p];
      TotalPriceAppend(papers[1..], p);
    }
  }

  /** The department of each paper, in order. */
  function DepartmentsOf(papers: seq<Paper>): (r: seq<string>)
    ensures |r| == |papers|
    ensures forall i :: 0 <= i < |papers| ==> r[i] == papers[i].department
  {
    seq(|papers|, i requires 0 <= i < |papers| => papers[i].department)
  }

  /** `get_profile`: `None` is the 404 for an unknown caller. */
  method GetProfile(s: State, tid: TelegramId) returns (r: Option<Profile>)
    ensures r.None? <==> tid !in s.users
    ensures r.Some? ==>
      var pp := PurchasedPapers(s, tid);
      && r.value.totalPapers == |pp|
      && r.value.totalSpent == TotalPrice(pp)
      && (forall d :: d in r.value.departmentStats <==> d in DepartmentsOf(pp))
      && (forall d :: d in r.value.departmentStats ==>
            r.value.departmentStats[d] == Count(DepartmentsOf(pp), d))
  {
    if tid !in s.users {
      return None;
    }
    var pp := PurchasedPapers(s, tid);
    var stats := DepartmentStats(pp);
    return Some(Profile(|pp|, TotalPrice(pp), stats));
  }

  /** The `dept_stats` loop of api.py:199-203: how many of `papers` fall in each department. */
  method DepartmentStats(papers: seq<Paper>) returns (stats: map<string, nat>)
    ensures forall d :: d in stats <==> d in DepartmentsOf(papers)
    ensures forall d :: d in stats ==> stats[d] == Count(DepartmentsOf(papers), d)
  {
    stats := map[];
    var i := 0;
    while i < |papers|
      invariant 0 <= i <= |papers|
      invariant forall d :: d in stats <==> d in DepartmentsOf(papers[..i])
      invariant forall d :: d in stats ==> stats[d] == Count(DepartmentsOf(papers[..i]), d)
    {
      var d := papers[i].department;
      DepartmentsOfStep(papers, i);
      if d !in stats {
        stats := stats[d := 0];
      }
      stats := stats[d := stats[d] + 1];
      i := i + 1;
    }
    assert papers[..i] == papers;
  }

  /** What one more paper does to the department column and its counts. */
  lemma DepartmentsOfStep(papers: seq<Paper>, i: nat)
    requires i < |papers|
    ensures var before, after, d := DepartmentsOf(papers[..i]), DepartmentsOf(papers[..i + 1]), papers[i].department;
      && (forall e :: e in after <==> e in before || e == d)
      && (forall e :: Count(after, e) == Count(before, e) + (if e == d then 1 else 0))
      && (d !in before ==> Count(before, d) == 0)
  {
    var before, after, d := DepartmentsOf(papers[..i]), DepartmentsOf(papers[..i + 1]), papers[i].department;
    assert after == before + [d];
    forall e ensures Count(after, e) == Count(before, e) + (if e == d then 1 else 0) {
      CountAppend(before, e, d);
    }
    CountPositive(before, d);
  }

  /** Sum of `m[k]` over the keys listed in `ks`. */
  function SumAt(ks: seq<string>, m: map<string, nat>): nat
    requires forall k :: k in ks ==> k in m
  {
    if |ks| == 0 then 0 else m[ks[0]] + SumAt(ks[1..], m)
  }

  lemma {:induction false} SumAtCounts(ks: seq<string>, m: map<string, nat>, xs: seq<string>)
    requires forall k :: k in ks ==> k in m && m[k] == Count(xs, k)
    ensures SumAt(ks, m) == SumOfCounts(ks, xs)
  {
    if |ks| > 0 {
      assert ks[0] in ks;
      assert forall k :: k in ks[1..] ==> k in ks;
      SumAtCounts(ks[1..], m, xs);
    }
  }

  /** The per-department counts of a profile add up to its paper count: summing
      the table over its keys, each listed once, gives `total_papers`. */
  lemma DepartmentStatsAddUp(papers: seq<Paper>, stats: map<string, nat>)
    requires forall d :: d in stats <==> d in DepartmentsOf(papers)
    requires forall d :: d in stats ==> stats[d] == Count(DepartmentsOf(papers), d)
    ensures var keys := Distinct(DepartmentsOf(papers));
      (forall k :: k in stats <==> k in keys) && SumAt(keys, stats) == |papers|
  {
    var ds := DepartmentsOf(papers);
    var keys := Distinct(ds);
    SumAtCounts(keys, stats, ds);
    SumOfCountsCovers(keys, ds);
  }

  // ---- GET /api/request-paper/<paper_id> ----

  datatype AccessReply = AccessNotFound | NotPurchased | Granted {
    predicate Success() {
      Granted?
    }

    function Message(): Option<string> {
      match this
      case AccessNotFound => Some(MsgNotFound)
      case NotPurchased => Some(MsgNotPurchased)
      case Granted => None
    }
  }

  /** `request_paper(paper_id)`: granted exactly to an existing caller who owns an existing paper. */
  function RequestPaper(s: State, tid: TelegramId, pid: PaperId): (r: AccessReply)
    ensures r.AccessNotFound? <==> tid !in s.users || FindPaper(s.catalog, pid).None?
    ensures r.Granted? <==>
      tid in s.users && FindPaper(s.catalog, pid).Some? && pid in s.users[tid].purchased
  {
    if tid !in s.users || FindPaper(s.catalog, pid).None? then AccessNotFound
    else if pid !in s.users[tid].purchased then NotPurchased
    else Granted
  }
}
