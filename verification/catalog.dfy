/** The public catalog listings of api.py:58-107: departments, then the
    semesters of a department, the years of a semester and the papers of a
    year.  `DISTINCT` leaves the order to the database; here the first
    occurrence in table order is kept, and the contracts speak only of
    membership and duplicate-freedom. */
module Catalog {
  import opened Seqs
  import opened Text
  import opened Store

  /** Paper names that mark placeholder rows rather than sellable papers. */
  const Sentinels: set<string> := {"__DEPT__", "__SEM__", "__YEAR__"}

  /** The `field` of every row satisfying `keep`, in table order. */
  function Column(catalog: seq<Paper>, keep: Paper -> bool, field: Paper -> string): (r: seq<string>)
    ensures forall v :: v in r <==> exists p :: p in catalog && keep(p) && field(p) == v
    ensures (forall p :: p in catalog ==> !keep(p)) ==> r == []
  {
    if |catalog| == 0 then []
    else
      var rest := Column(catalog[1..], keep, field);
      assert forall p :: p in catalog <==> p == catalog[0] || p in catalog[1..];
      if keep(catalog[0]) then [field(catalog[0])] + rest else rest
  }

  /** The department filter as evidently intended: non-empty and not starting
      with the two characters `__`. */
  predicate ListedDepartment(d: string) {
    d != "" && !StartsWith(d, "__")
  }

  /** `get_departments`, with the `__` prefix taken literally. */
  function Departments(catalog: seq<Paper>): (r: seq<string>)
    ensures NoDup(r)
    ensures forall d :: d in r <==>
      d != "" && !StartsWith(d, "__") && exists p :: p in catalog && p.department == d
  {
    Distinct(Column(catalog, (p: Paper) => ListedDepartment(p.department), (p: Paper) => p.department))
  }

  /** The department filter as api.py:61-64 sends it to the database:
      SQLAlchemy's `startswith("__")` becomes `LIKE '__' || '%'` with the
      underscores unescaped, and `_` matches any single character. */
  predicate ListedDepartmentAsWritten(d: string) {
    d != "" && !LikePrefix(d, "__")
  }

  /** `get_departments` exactly as written. */
  function DepartmentsAsWritten(catalog: seq<Paper>): (r: seq<string>)
    ensures NoDup(r)
    ensures forall d :: d in r <==>
      d != "" && !LikePrefix(d, "__") && exists p :: p in catalog && p.department == d
  {
    Distinct(Column(catalog, (p: Paper) => ListedDepartmentAsWritten(p.department), (p: Paper) => p.department))
  }

  /** As written, only one-character department names can ever be listed. */
  lemma DepartmentsAsWrittenOnlySingleChars(catalog: seq<Paper>, d: string)
    requires d in DepartmentsAsWritten(catalog)
    ensures |d| == 1
  {
  }

  /** A catalog with one ordinary department, `CSE`: the corrected listing shows
      it, the listing as written shows nothing. */
  lemma DepartmentsAsWrittenHidesCse()
    ensures var catalog := [Paper(1, "CSE", "1", "2023", "Mathematics", 10)];
      && DepartmentsAsWritten(catalog) == []
      && "CSE" in Departments(catalog)
  {
    var catalog := [Paper(1, "CSE", "1", "2023", "Mathematics", 10)];
    LikeDoubleUnderscore("CSE");
    assert catalog[0] in catalog && catalog[0].department == "CSE";
    assert "CSE"[..2] == "CS";
    assert ListedDepartment("CSE");
  }

  /** `get_semesters(department)`. */
  function Semesters(catalog: seq<Paper>, department: string): (r: seq<string>)
    ensures NoDup(r)
    ensures forall v :: v in r <==>
      v != "" && exists p :: p in catalog && p.department == department && p.semester == v
    ensures (forall p :: p in catalog ==> p.department != department) ==> r == []
  {
    Distinct(Column(catalog, (p: Paper) => p.department == department && p.semester != "",
                    (p: Paper) => p.semester))
  }

  /** `get_years(department, semester)`. */
  function Years(catalog: seq<Paper>, department: string, semester: string): (r: seq<string>)
    ensures NoDup(r)
    ensures forall v :: v in r <==>
      v != "" && exists p :: p in catalog && p.department == department
                                          && p.semester == semester && p.year == v
    ensures (forall p :: p in catalog ==> p.department != department || p.semester != semester) ==> r == []
  {
    Distinct(Column(catalog,
                    (p: Paper) => p.department == department && p.semester == semester && p.year != "",
                    (p: Paper) => p.year))
  }

  /** One row of the `get_papers` answer: `{id, paper_name, price}`. */
  datatype Summary = Summary(id: PaperId, name: string, price: int)

  /** Rows filed under the given department, semester and year that are not placeholders. */
  predicate Listed(p: Paper, department: string, semester: string, year: string) {
    p.department == department && p.semester == semester && p.year == year && p.name !in Sentinels
  }

  /** `get_papers(department, semester, year)`, in table order. */
  function Papers(catalog: seq<Paper>, department: string, semester: string, year: string): (r: seq<Summary>)
    ensures forall v :: v in r <==>
      exists p :: p in catalog && Listed(p, department, semester, year) && v == Summary(p.id, p.name, p.price)
    ensures forall v :: v in r ==> v.name !in Sentinels
    ensures IdsUnique(catalog) ==> NoDup(r)
  {
    if |catalog| == 0 then []
    else
      var p := catalog[0];
      var rest := Papers(catalog[1..], department, semester, year);
      assert forall q :: q in catalog <==> q == p || q in catalog[1..];
      if Listed(p, department, semester, year) then
        assert IdsUnique(catalog) ==> NoDup([Summary(p.id, p.name, p.price)] + rest) by {
          if IdsUnique(catalog) {
            assert IdsUnique(catalog[1..]) by {
              forall i, j | 0 <= i < j < |catalog[1..]| ensures catalog[1..][i].id != catalog[1..][j].id {
                assert catalog[1..][i] == catalog[i + 1] && catalog[1..][j] == catalog[j + 1];
              }
            }
            forall v | v in rest ensures v.id != p.id {
              var q :| q in catalog[1..] && Listed(q, department, semester, year) && v == Summary(q.id, q.name, q.price);
              var k :| 0 <= k < |catalog[1..]| && catalog[1..][k] == q;
              assert catalog[k + 1] == q;
            }
          }
        }
        [Summary(p.id, p.name, p.price)] + rest
      else
        assert IdsUnique(catalog) ==> IdsUnique(catalog[1..]) by {
          if IdsUnique(catalog) {
            forall i, j | 0 <= i < j < |catalog[1..]| ensures catalog[1..][i].id != catalog[1..][j].id {
              assert catalog[1..][i] == catalog[i + 1] && catalog[1..][j] == catalog[j + 1];
            }
          }
        }
        rest
  }
}
