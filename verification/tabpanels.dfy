/**
 * What the issue and project tab panels share: reading the paging request parameters,
 * flattening a query's per-repository lists into one list, and whether a panel is shown.
 */
module TabPanels {
  import opened Wrappers
  import opened JavaLang
  import opened Queries

  /** The default page size of both panels. */
  const NUMBER_OF_REVISIONS: int := 100

  /** The default page index of both panels. */
  const FIRST_PAGE: int := 0

  /** Why rendering a panel throws instead of returning: a page parameter that
      `Integer.parseInt` rejects, a runtime exception out of a repository lookup, a `null`
      commit handed to an action's constructor, a list index out of bounds, or a sub-list
      whose end lies before its start. */
  datatype PanelError = NumberFormat | LookupError | NullEntry | IndexOutOfBounds | IllegalArgument

  /** `getPageRequestParameter` / `getPageSizeRequestParameter`: `param` is `None` when there
      is no request or it lacks the parameter. A blank value gives the default; anything else
      goes through `Integer.parseInt`, whose NumberFormatException is not caught. */
  function PageParameter(param: Option<string>, default: int): (r: Result<int, PanelError>)
    ensures IsBlankOpt(param) ==> r == Ok(default)
    ensures !IsBlankOpt(param) ==> (r.Ok? <==> ParseInt(param.value).Some?)
    ensures !IsBlankOpt(param) && r.Ok? ==> Some(r.value) == ParseInt(param.value)
    ensures r.Err? ==> r.error == NumberFormat
  {
    if IsBlankOpt(param) then Ok(default)
    else match ParseInt(param.value)
      case None => Err(NumberFormat)
      case Some(n) => Ok(n)
  }

  /** A page parameter written in decimal is read back as the number. */
  lemma PageParameterOfIntToString(n: int, default: int)
    requires IsInt(n)
    ensures PageParameter(Some(IntToString(n)), default) == Ok(n)
  {
    ParseIntOfIntToString(n);
    IntToStringShape(n);
    var s := IntToString(n);
    assert !IsWhitespace(s[|s| - 1]);
  }

  /** The first hit of page `pageIndex`: `pageIndex * pageSize` in 32-bit arithmetic. */
  function PageStart(pageIndex: int, pageSize: int): (r: int)
    ensures IsInt(r)
    ensures IsInt(pageIndex * pageSize) ==> r == pageIndex * pageSize
  {
    Wrap32(pageIndex * pageSize)
  }

  /** The list of one repository, each value tagged with the repository id. */
  function Tag<T>(k: int, xs: seq<T>): (r: seq<(int, T)>)
    ensures |r| == |xs| && forall i :: 0 <= i < |xs| ==> r[i] == (k, xs[i])
  {
    seq(|xs|, i requires 0 <= i < |xs| => (k, xs[i]))
  }

  /** The panels' nested loop over the map's entries and then each entry's list. */
  function Flatten<T>(g: Groups<T>): (r: seq<(int, T)>)
    ensures |r| == Total(g)
    decreases |g|
  {
    if |g| == 0 then [] else Tag(g[0].0, g[0].1) + Flatten(g[1..])
  }

  lemma {:induction false} FlattenInsert<T>(g: Groups<T>, k: int, x: T)
    ensures multiset(Flatten(Insert(g, k, x))) == multiset(Flatten(g)) + multiset{(k, x)}
    decreases |g|
  {
    if |g| == 0 {
      assert Flatten(Insert(g, k, x)) == Tag(k, [x]) + Flatten(Insert(g, k, x)[1..]);
    } else if g[0].0 == k {
      var gi := Insert(g, k, x);
      assert gi[1..] == g[1..];
      assert Tag(k, g[0].1 + [x]) == Tag(k, g[0].1) + [(k, x)];
      assert Flatten(gi) == Tag(k, g[0].1 + [x]) + Flatten(g[1..]);
    } else {
      var gi := Insert(g, k, x);
      assert gi[1..] == Insert(g[1..], k, x);
      FlattenInsert(g[1..], k, x);
      assert Flatten(gi) == Tag(g[0].0, g[0].1) + Flatten(Insert(g[1..], k, x));
    }
  }

  /** Grouping a query's hits and flattening the groups again loses and invents nothing:
      the flattened list is a permutation of the grouped items. */
  lemma {:induction false} FlattenGroup<T>(items: seq<(int, T)>)
    ensures multiset(Flatten(Group(items))) == multiset(items)
    decreases |items|
  {
    if |items| > 0 {
      var init := items[..|items| - 1];
      var last := items[|items| - 1];
      FlattenGroup(init);
      FlattenInsert(Group(init), last.0, last.1);
      assert items == init + [last];
    }
  }

  /** Grouping and flattening items that all carry a value gives items that all carry one. */
  lemma FlattenGroupPresent<T>(items: seq<(int, Option<T>)>)
    requires forall i :: 0 <= i < |items| ==> items[i].1.Some?
    ensures forall i :: 0 <= i < |Flatten(Group(items))| ==> Flatten(Group(items))[i].1.Some?
  {
    var flat := Flatten(Group(items));
    FlattenGroup(items);
    forall i | 0 <= i < |flat| ensures flat[i].1.Some? {
      assert flat[i] in multiset(items);
      var j :| 0 <= j < |items| && items[j] == flat[i];
    }
  }

  /** And an item without a value survives grouping and flattening. */
  lemma FlattenGroupMissing<T>(items: seq<(int, Option<T>)>, j: int)
    requires 0 <= j < |items| && items[j].1.None?
    ensures exists i :: 0 <= i < |Flatten(Group(items))| && Flatten(Group(items))[i].1.None?
  {
    var flat := Flatten(Group(items));
    FlattenGroup(items);
    assert items[j] in multiset(flat);
    var i :| 0 <= i < |flat| && flat[i] == items[j];
  }

  /** `showPanel` of both panels: the indexer must be running and the user must hold the
      permission. */
  function ShowPanel(indexing: bool, permitted: bool): (r: bool)
    ensures r ==> indexing
    ensures indexing ==> (r <==> permitted)
  {
    indexing && permitted
  }
}
