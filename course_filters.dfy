/**
 * The facet sidebar of the course search: the checked filter URLs, what a
 * click on a checkbox does to them, the search URL requested next, and the
 * heading shown above each facet group.
 */
module Filters {
  import Strings

  /** The search endpoint used when no filter is checked: `/api/course-search/<host>`. */
  function DefaultUrl(host: string): string {
    "/api/course-search/" + host
  }

  // ---------------------------------------------------------------------
  // Toggling one filter
  // ---------------------------------------------------------------------

  /** `selected.filter(url => url !== u)`: every copy of `u` goes, the rest keep their order. */
  function Without(s: seq<string>, u: string): (r: seq<string>)
    ensures u !in r
    ensures multiset(r) == multiset(s)[u := 0]
    ensures forall v :: v in r <==> v in s && v != u
  {
    if s == [] then []
    else
      assert s == [s[0]] + s[1..];
      var rest := Without(s[1..], u);
      if s[0] == u then rest else [s[0]] + rest
  }

  /** Removing an absent URL changes nothing. */
  lemma {:induction false} WithoutAbsent(s: seq<string>, u: string)
    requires u !in s
    ensures Without(s, u) == s
  {
    if s != [] {
      WithoutAbsent(s[1..], u);
      assert s == [s[0]] + s[1..];
    }
  }

  /** A single URL is dropped when it is `u` and kept otherwise. */
  lemma WithoutOne(v: string, u: string)
    ensures Without([v], u) == if v == u then [] else [v]
  {
    assert [v][1..] == [];
  }

  /**
   * Filtering works piece by piece: the URLs kept from `a + b` are those
   * kept from `a` followed by those kept from `b`, so with `WithoutOne` the
   * kept URLs stay in their original order.
   */
  lemma {:induction false} WithoutConcat(a: seq<string>, b: seq<string>, u: string)
    ensures Without(a + b, u) == Without(a, u) + Without(b, u)
  {
    if a == [] {
      assert a + b == b;
    } else {
      assert (a + b)[0] == a[0] && (a + b)[1..] == a[1..] + b;
      WithoutConcat(a[1..], b, u);
    }
  }

  /** Removal keeps the list free of duplicates. */
  lemma {:induction false} WithoutKeepsNoDuplicates(s: seq<string>, u: string)
    requires Strings.Distinct(s)
    ensures Strings.Distinct(Without(s, u))
  {
    if s != [] {
      WithoutKeepsNoDuplicates(s[1..], u);
      var rest := Without(s[1..], u);
      if s[0] != u {
        assert s[0] !in s[1..] by {
          forall k | 0 <= k < |s[1..]| ensures s[1..][k] != s[0] {
            assert s[1..][k] == s[k + 1];
          }
        }
        assert s[0] !in rest;
        var r := [s[0]] + rest;
        forall i, j | 0 <= i < j < |r| ensures r[i] != r[j] {
          if i == 0 {
            assert r[j] == rest[j - 1];
          } else {
            assert r[i] == rest[i - 1] && r[j] == rest[j - 1];
          }
        }
      }
    }
  }

  /**
   * `handleFilterChange`'s new list: a checked URL is unchecked (all its
   * copies removed), an unchecked one is appended at the end.
   */
  function Toggle(selected: seq<string>, url: string): (r: seq<string>)
    ensures url in r <==> url !in selected
    ensures forall v :: v != url ==> (v in r <==> v in selected)
    ensures url in selected ==> r == Without(selected, url)
    ensures url !in selected ==> r == selected + [url]
  {
    if url in selected then Without(selected, url) else selected + [url]
  }

  /** Unchecking a URL that is listed once leaves the URLs before and after it, in order. */
  lemma UncheckKeepsOrder(before: seq<string>, url: string, after: seq<string>)
    requires url !in before && url !in after
    ensures Toggle(before + [url] + after, url) == before + after
  {
    var s := before + [url] + after;
    assert url in s by { assert s[|before|] == url; }
    WithoutConcat(before, [url], url);
    WithoutOne(url, url);
    WithoutAbsent(before, url);
    assert Without(before + [url], url) == before;
    WithoutConcat(before + [url], after, url);
    WithoutAbsent(after, url);
    assert Without(s, url) == before + after;
  }

  /** Toggling keeps the list free of duplicates. */
  lemma ToggleKeepsNoDuplicates(selected: seq<string>, url: string)
    requires Strings.Distinct(selected)
    ensures Strings.Distinct(Toggle(selected, url))
  {
    if url in selected {
      WithoutKeepsNoDuplicates(selected, url);
    } else {
      var r := selected + [url];
      forall i, j | 0 <= i < j < |r| ensures r[i] != r[j] {
        if j == |selected| {
          assert r[i] == selected[i];
        }
      }
    }
  }

  /**
   * Clicking the same checkbox twice checks the same filters as before; when
   * it was unchecked to begin with, the list is exactly restored. A checked
   * filter clicked twice comes back at the end of the list.
   */
  lemma ToggleTwice(selected: seq<string>, url: string)
    ensures forall v :: v in Toggle(Toggle(selected, url), url) <==> v in selected
    ensures url !in selected ==> Toggle(Toggle(selected, url), url) == selected
    ensures url in selected ==> Toggle(Toggle(selected, url), url) == Without(selected, url) + [url]
  {
    if url !in selected {
      WithoutAbsent(selected, url);
      assert Without(selected + [url], url) == Without(selected, url) by {
        WithoutAppend(selected, url);
      }
    }
  }

  /** Removing `u` from a list that ends in `u` removes that last entry too. */
  lemma {:induction false} WithoutAppend(s: seq<string>, u: string)
    ensures Without(s + [u], u) == Without(s, u)
  {
    if s != [] {
      assert (s + [u])[1..] == s[1..] + [u];
      WithoutAppend(s[1..], u);
    } else {
      assert Without([u], u) == Without([], u) by {
        assert [u][1..] == [];
      }
    }
  }

  // ---------------------------------------------------------------------
  // The next request
  // ---------------------------------------------------------------------

  /** The URL fetched after a change: the checked URLs joined with `&`, or the default search. */
  function RequestUrl(selected: seq<string>, host: string): string {
    if |selected| > 0 then Strings.Join(selected, "&") else DefaultUrl(host)
  }

  /** When no checked URL holds an `&`, the request cuts back at `&` into exactly the checked URLs. */
  lemma RequestUrlSplits(selected: seq<string>, host: string)
    requires selected != []
    requires forall i :: 0 <= i < |selected| ==> '&' !in selected[i]
    ensures Strings.Split(RequestUrl(selected, host), '&') == selected
  {
    Strings.SplitJoin(selected, '&');
  }

  /** Unchecking the only checked filter requests what "Clear Filters" requests. */
  lemma UncheckLastIsClear(url: string, host: string)
    ensures Toggle([url], url) == []
    ensures RequestUrl(Toggle([url], url), host) == DefaultUrl(host)
  {
    assert Without([url], url) == Without([], url) by {
      assert [url][1..] == [];
    }
  }

  // ---------------------------------------------------------------------
  // Facet headings
  // ---------------------------------------------------------------------

  /** `key.replace("field_", "").replace("_name", "")`: the first occurrence of each is dropped. */
  function FacetHeading(key: string): string {
    Strings.ReplaceFirst(Strings.ReplaceFirst(key, FieldPrefix, ""), NameSuffix, "")
  }

  const FieldPrefix := "field_"
  const NameSuffix := "_name"

  /** `_name` occurs nowhere in `x`. */
  predicate NoName(x: string) {
    forall j :: 0 <= j <= |x| ==> !Strings.OccursAt(x, NameSuffix, j)
  }

  /** A stem without an underscore cannot hold `_name`. */
  lemma NoUnderscoreNoName(x: string)
    requires '_' !in x
    ensures NoName(x)
  {
    forall j | 0 <= j <= |x| ensures !Strings.OccursAt(x, NameSuffix, j) {
      if j + |NameSuffix| <= |x| {
        assert x[j..j + |NameSuffix|][0] == x[j];
      }
    }
  }

  /**
   * The first `_name` in `x + "_name" + tail` is the one after `x` when `x`
   * holds no `_name`: no end of `x` can start an earlier match, since only
   * the first character of `_name` is an underscore.
   */
  lemma DropFirstName(x: string, tail: string)
    requires NoName(x)
    ensures Strings.ReplaceFirst(x + NameSuffix + tail, NameSuffix, "") == x + tail
  {
    var rest := x + NameSuffix + tail;
    assert Strings.OccursAt(rest, NameSuffix, |x|) by {
      assert rest[|x|..|x| + |NameSuffix|] == NameSuffix;
    }
    forall j | 0 <= j < |x| ensures !Strings.OccursAt(rest, NameSuffix, j) {
      if j + |NameSuffix| <= |x| {
        assert rest[j..j + |NameSuffix|] == x[j..j + |NameSuffix|];
        assert !Strings.OccursAt(x, NameSuffix, j);
      } else if j + |NameSuffix| <= |rest| {
        var k := |x| - j;
        assert 0 < k < |NameSuffix|;
        assert rest[j..j + |NameSuffix|][k] == rest[|x|] == '_';
        assert NameSuffix[k] != '_';
      }
    }
    Strings.ReplaceFirstAt(rest, NameSuffix, "", |x|);
    assert rest[..|x|] + "" + rest[|x| + |NameSuffix|..] == x + tail;
  }

  /**
   * A key `field_<x>_name<tail>` is headed `<x><tail>` when `x` holds no
   * `_name`: the leading `field_` and the first `_name` are dropped, and any
   * later `_name` stays.
   */
  lemma FacetHeadingStrips(x: string, tail: string)
    requires NoName(x)
    ensures FacetHeading(FieldPrefix + x + NameSuffix + tail) == x + tail
  {
    var rest := x + NameSuffix + tail;
    assert FieldPrefix + x + NameSuffix + tail == FieldPrefix + rest;
    Strings.ReplaceFirstPrefix(FieldPrefix, rest, "");
    assert "" + rest == rest;
    DropFirstName(x, tail);
  }

  /** A stem of several words keeps its inner underscore: `field_course_level_name` is headed "course_level". */
  lemma FacetHeadingMultiWord()
    ensures FacetHeading(FieldPrefix + "course" + "_level" + NameSuffix) == "course_level"
  {
    var x := "course" + "_level";
    forall j | 0 <= j <= |x| ensures !Strings.OccursAt(x, NameSuffix, j) {
      if j + |NameSuffix| <= |x| {
        // the only underscore of `x` is followed by `l`, not `n`
        assert x[j..j + |NameSuffix|][0] == x[j];
        assert x[j..j + |NameSuffix|][1] == x[j + 1];
      }
    }
    FacetHeadingStrips(x, "");
    assert FieldPrefix + x + NameSuffix + "" == FieldPrefix + "course" + "_level" + NameSuffix;
    assert x + "" == "course_level";
  }

  /** The brand facet is headed "brands". */
  lemma FacetHeadingBrands()
    ensures FacetHeading(FieldPrefix + "brands" + NameSuffix) == "brands"
  {
    NoUnderscoreNoName("brands");
    FacetHeadingStrips("brands", "");
    assert FieldPrefix + "brands" + NameSuffix + "" == FieldPrefix + "brands" + NameSuffix;
  }

  /** Only the first `_name` goes: `field_level_name_name` is headed "level_name". */
  lemma FacetHeadingKeepsSecondName()
    ensures FacetHeading(FieldPrefix + "level" + NameSuffix + NameSuffix) == "level" + NameSuffix
  {
    NoUnderscoreNoName("level");
    FacetHeadingStrips("level", NameSuffix);
  }

  // ---------------------------------------------------------------------
  // The component state
  // ---------------------------------------------------------------------

  class CourseFilters {
    /** `window.location.host`, fixed for the page's lifetime. */
    const host: string
    /** The checked filter URLs, in the order they were checked. */
    var selected: seq<string>
    /** The URL most recently handed to `fetchFilters`. */
    var requestUrl: string

    ghost predicate Valid()
      reads this
    {
      Strings.Distinct(selected)
    }

    /** Mount: nothing checked, and the URL the parent passed in is fetched. */
    constructor(host: string, selectedFilters: string)
      ensures Valid()
      ensures this.host == host && selected == [] && requestUrl == selectedFilters
    {
      this.host := host;
      selected := [];
      requestUrl := selectedFilters;
    }

    /** `handleFilterChange`: the clicked checkbox flips and the search for the new list is requested. */
    method HandleFilterChange(url: string)
      requires Valid()
      modifies this
      ensures Valid()
      ensures selected == Toggle(old(selected), url)
      ensures url in selected <==> url !in old(selected)
      ensures requestUrl == RequestUrl(selected, host)
    {
      ToggleKeepsNoDuplicates(selected, url);
      selected := Toggle(selected, url);
      requestUrl := RequestUrl(selected, host);
    }

    /** `clearFilters`: nothing checked, and the default search is requested. */
    method ClearFilters()
      modifies this
      ensures Valid()
      ensures selected == [] && requestUrl == DefaultUrl(host)
    {
      selected := [];
      requestUrl := DefaultUrl(host);
    }
  }
}
