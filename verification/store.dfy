/** The in-memory stand-in for the relational store: the question-paper catalog
    and the user table, as the handlers of api.py read and write them. */
module Store {
  import opened Wrappers
  import opened Seqs

  type PaperId = int
  type TelegramId = int

  /** A `QuestionPaper` row. */
  datatype Paper = Paper(id: PaperId, department: string, semester: string, year: string,
                         name: string, price: int)

  /** A `User` row: the star balance and the purchased papers, oldest first. */
  datatype User = User(stars: int, purchased: seq<PaperId>)

  /** The whole store: catalog rows in table order and users keyed by `telegram_id`. */
  datatype State = State(catalog: seq<Paper>, users: map<TelegramId, User>)

  /** `id` is the primary key of the catalog. */
  predicate IdsUnique(catalog: seq<Paper>) {
    forall i, j :: 0 <= i < j < |catalog| ==> catalog[i].id != catalog[j].id
  }

  /** `query(QuestionPaper).filter(QuestionPaper.id == id).first()`. */
  function FindPaper(catalog: seq<Paper>, id: PaperId): (r: Option<Paper>)
    ensures r.Some? ==> r.value in catalog && r.value.id == id
    ensures r.None? <==> forall p :: p in catalog ==> p.id != id
  {
    if |catalog| == 0 then None
    else if catalog[0].id == id then Some(catalog[0])
    else FindPaper(catalog[1..], id)
  }

  /** `user.purchased_papers`: the ids resolved against the catalog, in purchase
      order; an id whose row is gone has nothing to load and is skipped. */
  function Resolve(catalog: seq<Paper>, ids: seq<PaperId>): (r: seq<Paper>)
    ensures |r| <= |ids|
    ensures forall p :: p in r ==> p in catalog && p.id in ids
  {
    if |ids| == 0 then []
    else
      var rest := Resolve(catalog, ids[1..]);
      match FindPaper(catalog, ids[0])
      case Some(p) => [p] + rest
      case None => rest
  }

  /** Resolving one more id adds its row, if any, at the end. */
  lemma {:induction false} ResolveAppend(catalog: seq<Paper>, ids: seq<PaperId>, id: PaperId)
    ensures Resolve(catalog, ids + [id]) ==
      Resolve(catalog, ids) + (match FindPaper(catalog, id) case Some(p) => [p] case None => [])
  {
    if |ids| > 0 {
      assert (ids + [id])[1..] == ids[1..] + [id];
      ResolveAppend(catalog, ids[1..], id);
    } else {
      assert ids + [id] == [id];
    }
  }

  /** When every id has a row, nothing is skipped. */
  lemma {:induction false} ResolveTotal(catalog: seq<Paper>, ids: seq<PaperId>)
    requires forall id :: id in ids ==> FindPaper(catalog, id).Some?
    ensures |Resolve(catalog, ids)| == |ids|
    ensures forall i :: 0 <= i < |ids| ==> Resolve(catalog, ids)[i] == FindPaper(catalog, ids[i]).value
  {
    if |ids| > 0 {
      assert ids[0] in ids;
      assert forall id :: id in ids[1..] ==> id in ids;
      ResolveTotal(catalog, ids[1..]);
      var r := Resolve(catalog, ids);
      forall i | 0 <= i < |ids| ensures r[i] == FindPaper(catalog, ids[i]).value {
        if i > 0 {
          assert r[i] == Resolve(catalog, ids[1..])[i - 1];
          assert ids[1..][i - 1] == ids[i];
        }
      }
    }
  }

  /** The store's integrity: paper ids are a primary key, every purchase refers
      to an existing paper, and no user holds the same paper twice. */
  predicate Valid(s: State) {
    && IdsUnique(s.catalog)
    && forall tid :: tid in s.users ==>
         && NoDup(s.users[tid].purchased)
         && forall id :: id in s.users[tid].purchased ==> FindPaper(s.catalog, id).Some?
  }

  /** `user.purchased_papers` for an existing user: in a valid store, one row
      per purchased id, in purchase order. */
  function PurchasedPapers(s: State, tid: TelegramId): (r: seq<Paper>)
    requires tid in s.users
    ensures forall p :: p in r ==> p in s.catalog && p.id in s.users[tid].purchased
    ensures Valid(s) ==>
      && |r| == |s.users[tid].purchased|
      && forall i :: 0 <= i < |r| ==> r[i].id == s.users[tid].purchased[i] && r[i] in s.catalog
  {
    ResolveWhenValid(s, tid);
    Resolve(s.catalog, s.users[tid].purchased)
  }

  lemma ResolveWhenValid(s: State, tid: TelegramId)
    requires tid in s.users
    ensures Valid(s) ==> forall id :: id in s.users[tid].purchased ==> FindPaper(s.catalog, id).Some?
    ensures Valid(s) ==> |Resolve(s.catalog, s.users[tid].purchased)| == |s.users[tid].purchased|
    ensures Valid(s) ==> forall i :: 0 <= i < |s.users[tid].purchased| ==>
      Resolve(s.catalog, s.users[tid].purchased)[i] == FindPaper(s.catalog, s.users[tid].purchased[i]).value
  {
    if Valid(s) {
      ResolveTotal(s.catalog, s.users[tid].purchased);
    }
  }
}
