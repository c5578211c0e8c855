/**
 * The package manager's version comparator, kept abstract. `apt_pkg.version_compare(a, b)` returns a
 * negative number, zero or a positive number as `a` sorts before, with or after `b`; the planner
 * applies it to whole package names. The model takes it as a parameter and assumes only the laws
 * of a total preorder.
 */
module VersionOrder {

  ghost predicate IsComparator(cmp: (string, string) -> int) {
    && (forall x :: cmp(x, x) == 0)
    && (forall x, y :: cmp(x, y) > 0 <==> cmp(y, x) < 0)
    && (forall x, y, z :: cmp(x, y) <= 0 && cmp(y, z) <= 0 ==> cmp(x, z) <= 0)
  }

  /**
   * The running maximum of a scan that starts from the empty string and moves to a name only when
   * that name compares strictly greater, so among equal names the first one stays.
   */
  function MaxName(names: seq<string>, cmp: (string, string) -> int): string
    decreases |names|
  {
    if names == [] then ""
    else
      var best := MaxName(names[..|names| - 1], cmp);
      var x := names[|names| - 1];
      if cmp(x, best) > 0 then x else best
  }

  /** One more step of the scan. */
  lemma MaxNameSnoc(names: seq<string>, x: string, cmp: (string, string) -> int)
    ensures MaxName(names + [x], cmp) == if cmp(x, MaxName(names, cmp)) > 0 then x else MaxName(names, cmp)
  {
    assert (names + [x])[..|names|] == names;
  }

  /** The result is the start value or one of the names. */
  lemma {:induction false} MaxNameIsStartOrMember(names: seq<string>, cmp: (string, string) -> int)
    ensures MaxName(names, cmp) == "" || MaxName(names, cmp) in names
    decreases |names|
  {
    if names != [] {
      var init := names[..|names| - 1];
      MaxNameIsStartOrMember(init, cmp);
      assert names == init + [names[|names| - 1]];
    }
  }

  /** The result compares greater than or equal to every name scanned. */
  lemma {:induction false} MaxNameIsUpperBound(names: seq<string>, cmp: (string, string) -> int, x: string)
    requires IsComparator(cmp)
    requires x in names
    ensures cmp(x, MaxName(names, cmp)) <= 0
    decreases |names|
  {
    var init := names[..|names| - 1];
    var last := names[|names| - 1];
    var best := MaxName(init, cmp);
    assert names == init + [last];
    if x == last {
      if cmp(last, best) <= 0 {
      } else {
        assert cmp(last, last) == 0;
      }
    } else {
      assert x in init;
      MaxNameIsUpperBound(init, cmp, x);
      if cmp(last, best) > 0 {
        assert cmp(best, last) < 0;
      }
    }
  }

  /**
   * When every name compares strictly greater than the empty string, the scan ends at the empty
   * string exactly when there was nothing to scan.
   */
  lemma MaxNameEmptyIff(names: seq<string>, cmp: (string, string) -> int)
    requires IsComparator(cmp)
    requires forall x :: x in names ==> cmp(x, "") > 0
    ensures MaxName(names, cmp) == "" <==> names == []
  {
    if names != [] {
      var first := names[0];
      MaxNameIsUpperBound(names, cmp, first);
      assert cmp(first, "") > 0;
    }
  }
}
