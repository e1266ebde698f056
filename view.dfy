/**
 * The base view of a figure: a type name, a layout flag, child views and an
 * id. Publishing a layout numbers every view of its tree in pre-order and
 * lists the non-layout ones; a figure URL's query string is read back into
 * a dictionary.
 */
module Views {
  import opened Wrappers
  import opened Numeric
  import opened Strings
  import opened Decimal

  /** One entry of the `views` list of a published layout. */
  datatype ViewEntry = ViewEntry(viewType: string, viewId: string)

  /** The last twelve characters of a generated UUID, or all of it when shorter. */
  function RandomId(uuid: string): (r: string)
    ensures |r| == MinInt(12, |uuid|)
    ensures uuid == uuid[..|uuid| - |r|] + r
  {
    if |uuid| >= 12 then uuid[|uuid| - 12..] else uuid
  }

  predicate IsHexDigit(c: char)
  {
    IsDigit(c) || 'a' as int <= c as int <= 'f' as int
  }

  /** The canonical text of a UUID: 36 characters, hyphens at 8, 13, 18 and 23, lower-case hex elsewhere. */
  predicate IsUuidText(s: string)
  {
    && |s| == 36
    && forall k :: 0 <= k < 36 ==> if k in {8, 13, 18, 23} then s[k] == '-' else IsHexDigit(s[k])
  }

  /** The id taken from a UUID in canonical form is its last group: twelve hex digits. */
  lemma RandomIdOfUuid(uuid: string)
    requires IsUuidText(uuid)
    ensures var r := RandomId(uuid);
      |r| == 12 && forall k :: 0 <= k < 12 ==> IsHexDigit(r[k])
  {
    var r := RandomId(uuid);
    forall k | 0 <= k < 12
      ensures IsHexDigit(r[k])
    {
      assert r[k] == uuid[24 + k];
    }
  }

  class View {
    const viewType: string
    const isLayout: bool
    const children: seq<View>
    /** One more than the deepest child: what recursion over the tree decreases. */
    ghost const depth: nat
    var id: string

    /** A new view; its id comes from the UUID the caller generated. */
    constructor (viewType: string, isLayout: bool, children: seq<View>, uuid: string)
      ensures this.viewType == viewType && this.isLayout == isLayout && this.children == children
      ensures id == RandomId(uuid)
      ensures (forall k :: 0 <= k < |children| ==> children[k].Acyclic()) ==> Acyclic()
    {
      this.viewType := viewType;
      this.isLayout := isLayout;
      this.children := children;
      this.depth := 1 + MaxDepth(children);
      this.id := RandomId(uuid);
      new;
      forall k | 0 <= k < |children|
        ensures children[k].depth < depth
      {
        MaxDepthBound(children, k);
      }
    }

    /** Every descendant lies strictly deeper: the child links form a finite tree-shaped graph. */
    ghost predicate Acyclic()
      decreases depth
    {
      forall k :: 0 <= k < |children| ==> children[k].depth < depth && children[k].Acyclic()
    }

    /** The view, then the pre-order listing of each child in turn. */
    function Descendants(): (r: seq<View>)
      requires Acyclic()
      ensures |r| >= 1 && r[0] == this
      decreases depth, |children| + 1
    {
      [this] + DescendantsFrom(0)
    }

    /** The pre-order listings of children `k` onwards, one after the other. */
    function DescendantsFrom(k: nat): seq<View>
      requires Acyclic() && k <= |children|
      decreases depth, |children| - k
    {
      if k == |children| then [] else children[k].Descendants() + DescendantsFrom(k + 1)
    }

    /** `get_descendant_views_including_self`, appending each child's listing element by element. */
    method GetDescendantViewsIncludingSelf() returns (ret: seq<View>)
      requires Acyclic()
      ensures ret == Descendants()
      decreases depth
    {
      ret := [this];
      for i := 0 to |children|
        invariant ret + DescendantsFrom(i) == Descendants()
      {
        var a := children[i].GetDescendantViewsIncludingSelf();
        var before := ret;
        for j := 0 to |a|
          invariant ret == before + a[..j]
        {
          ret := ret + [a[j]];
        }
        assert a[..|a|] == a;
        assert DescendantsFrom(i) == a + DescendantsFrom(i + 1);
        assert (before + a) + DescendantsFrom(i + 1) == before + (a + DescendantsFrom(i + 1));
      }
    }

    /**
     * The deterministic part of `url` for a layout: every view of the tree
     * gets its pre-order index as its id (a view reached twice keeps the
     * later index), and the non-layout views are listed with their type and
     * new id, in pre-order.
     */
    method Url() returns (views: seq<ViewEntry>)
      requires isLayout && Acyclic()
      modifies set v | v in Descendants()
      ensures forall v :: v in Descendants() ==> v.id == NatToString(LastIndex(Descendants(), v))
      ensures views == ViewList(Descendants())
    {
      var allViews := GetDescendantViewsIncludingSelf();
      AssignIds(allViews);
      views := ListViews(allViews);
    }
  }

  /** Each view gets, as its id, the position at which the loop over `allViews` last reaches it. */
  method AssignIds(allViews: seq<View>)
    modifies set v | v in allViews
    ensures forall v :: v in allViews ==> v.id == NatToString(LastIndex(allViews, v))
  {
    for i := 0 to |allViews|
      invariant forall j :: 0 <= j < i ==> allViews[j].id == NatToString(LastIndex(allViews[..i], allViews[j]))
    {
      allViews[i].id := NatToString(i);
      LastIndexExtend(allViews, i);
    }
    assert allViews[..|allViews|] == allViews;
  }

  /** The non-layout views of `allViews`, in order, each with its type and current id. */
  method ListViews(allViews: seq<View>) returns (views: seq<ViewEntry>)
    ensures views == ViewList(allViews)
  {
    views := [];
    for i := 0 to |allViews|
      invariant views == ViewList(allViews[..i])
    {
      if !allViews[i].isLayout {
        views := views + [ViewEntry(allViews[i].viewType, allViews[i].id)];
      }
      assert allViews[..i + 1][..i] == allViews[..i];
    }
    assert allViews[..|allViews|] == allViews;
  }

  /** The deepest view among `vs`, or 0. */
  ghost function MaxDepth(vs: seq<View>): nat
  {
    if |vs| == 0 then 0 else MaxInt(vs[0].depth, MaxDepth(vs[1..]))
  }

  lemma {:induction false} MaxDepthBound(vs: seq<View>, k: nat)
    requires k < |vs|
    ensures vs[k].depth <= MaxDepth(vs)
  {
    if k > 0 {
      MaxDepthBound(vs[1..], k - 1);
    }
  }

  /** The index of the last occurrence of `v` in `s`. */
  function LastIndex<T(==)>(s: seq<T>, v: T): (r: nat)
    requires v in s
    ensures r < |s| && s[r] == v
    ensures forall k :: r < k < |s| ==> s[k] != v
  {
    if s[|s| - 1] == v then |s| - 1
    else
      assert v in s[..|s| - 1] by {
        var k :| 0 <= k < |s| && s[k] == v;
        assert s[..|s| - 1][k] == v;
      }
      LastIndex(s[..|s| - 1], v)
  }

  /** In the prefix through `i`, the last occurrence of an element is `i` when it is `s[i]`, and as before otherwise. */
  lemma LastIndexExtend<T>(s: seq<T>, i: nat)
    requires i < |s|
    ensures forall j :: 0 <= j <= i ==>
      LastIndex(s[..i + 1], s[j]) == if s[j] == s[i] then i else LastIndex(s[..i], s[j])
  {
    assert s[..i + 1] == s[..i] + [s[i]];
    forall j | 0 <= j <= i && s[j] != s[i]
      ensures LastIndex(s[..i + 1], s[j]) == LastIndex(s[..i], s[j])
    {
      assert s[..i][j] == s[j];
      LastIndexAppend(s[..i], s[i], s[j]);
    }
  }

  /** Appending another element does not move the last occurrence of `v`. */
  lemma LastIndexAppend<T>(s: seq<T>, x: T, v: T)
    requires v in s && v != x
    ensures LastIndex(s + [x], v) == LastIndex(s, v)
  {
    assert (s + [x])[..|s|] == s;
  }

  /** In a sequence without repetitions, the last occurrence of `s[i]` is `i`. */
  lemma LastIndexDistinct<T>(s: seq<T>, i: nat)
    requires i < |s|
    requires forall a, b :: 0 <= a < b < |s| ==> s[a] != s[b]
    ensures LastIndex(s, s[i]) == i
  {
  }

  /** The views of a tree without shared subtrees get ids "0", "1", ... in pre-order, all different. */
  lemma DistinctTreeIds(s: seq<View>, i: nat, j: nat)
    requires i < |s| && j < |s| && i != j
    requires forall a, b :: 0 <= a < b < |s| ==> s[a] != s[b]
    ensures NatToString(LastIndex(s, s[i])) == NatToString(i)
    ensures NatToString(LastIndex(s, s[i])) != NatToString(LastIndex(s, s[j]))
  {
    LastIndexDistinct(s, i);
    LastIndexDistinct(s, j);
    NatToStringInjective(i, j);
  }

  /** The `views` entries of the non-layout views of `vs`, in order. */
  function ViewList(vs: seq<View>): (r: seq<ViewEntry>)
    reads set v | v in vs
  {
    if |vs| == 0 then []
    else
      var last := vs[|vs| - 1];
      ViewList(vs[..|vs| - 1]) + if last.isLayout then [] else [ViewEntry(last.viewType, last.id)]
  }

  /** Every non-layout view has an entry, and every entry is that of a non-layout view. */
  lemma {:induction false} ViewListMembers(vs: seq<View>)
    ensures |ViewList(vs)| <= |vs|
    ensures forall k :: 0 <= k < |vs| && !vs[k].isLayout ==> ViewEntry(vs[k].viewType, vs[k].id) in ViewList(vs)
    ensures forall e :: e in ViewList(vs) ==>
      exists k :: 0 <= k < |vs| && !vs[k].isLayout && e == ViewEntry(vs[k].viewType, vs[k].id)
  {
    if |vs| > 0 {
      var init := vs[..|vs| - 1];
      ViewListMembers(init);
      forall e | e in ViewList(init)
        ensures exists k :: 0 <= k < |vs| && !vs[k].isLayout && e == ViewEntry(vs[k].viewType, vs[k].id)
      {
        var k :| 0 <= k < |init| && !init[k].isLayout && e == ViewEntry(init[k].viewType, init[k].id);
        assert vs[k] == init[k];
      }
      forall k | 0 <= k < |vs| - 1 && !vs[k].isLayout
        ensures ViewEntry(vs[k].viewType, vs[k].id) in ViewList(vs)
      {
        assert vs[k] == init[k];
      }
    }
  }

  /** A view without children, such as an annotated video, lists only itself. */
  lemma LeafDescendants(v: View)
    requires v.Acyclic() && v.children == []
    ensures v.Descendants() == [v]
  {
  }

  /** A URL's query: the pieces after the first '?', split on '&'; a piece counts when it splits on '=' into exactly two parts. */
  function QueryMap(pieces: seq<string>): (r: map<string, string>)
  {
    if |pieces| == 0 then map[]
    else
      var x := Split(pieces[|pieces| - 1], '=');
      var m := QueryMap(pieces[..|pieces| - 1]);
      if |x| == 2 then m[x[0] := x[1]] else m
  }

  /** The piece holds exactly one '=', with key `key` before it. */
  predicate Binds(piece: string, key: string)
  {
    |Split(piece, '=')| == 2 && Split(piece, '=')[0] == key
  }

  /**
   * A key is present exactly when some piece binds it, and its value comes
   * from the last piece that does.
   */
  lemma QueryMapBinding(pieces: seq<string>, key: string)
    ensures key in QueryMap(pieces) <==> exists j :: 0 <= j < |pieces| && Binds(pieces[j], key)
    ensures forall j :: 0 <= j < |pieces| && Binds(pieces[j], key)
                     && (forall l :: j < l < |pieces| ==> !Binds(pieces[l], key))
                     ==> key in QueryMap(pieces) && QueryMap(pieces)[key] == Split(pieces[j], '=')[1]
  {
    QueryMapKeys(pieces, key);
    forall j | 0 <= j < |pieces| && Binds(pieces[j], key) && (forall l :: j < l < |pieces| ==> !Binds(pieces[l], key))
      ensures key in QueryMap(pieces) && QueryMap(pieces)[key] == Split(pieces[j], '=')[1]
    {
      QueryMapLast(pieces, key, j);
    }
  }

  /** A key is present exactly when some piece binds it. */
  lemma {:induction false} QueryMapKeys(pieces: seq<string>, key: string)
    ensures key in QueryMap(pieces) <==> exists j :: 0 <= j < |pieces| && Binds(pieces[j], key)
  {
    if |pieces| > 0 {
      var init := pieces[..|pieces| - 1];
      QueryMapKeys(init, key);
      if exists j :: 0 <= j < |init| && Binds(init[j], key) {
        var j :| 0 <= j < |init| && Binds(init[j], key);
        assert pieces[j] == init[j];
      }
      if exists j :: 0 <= j < |pieces| && Binds(pieces[j], key) {
        var j :| 0 <= j < |pieces| && Binds(pieces[j], key);
        if j < |init| {
          assert init[j] == pieces[j];
        }
      }
    }
  }

  /** The value of a key comes from the last piece that binds it. */
  lemma {:induction false} QueryMapLast(pieces: seq<string>, key: string, j: nat)
    requires j < |pieces| && Binds(pieces[j], key)
    requires forall l :: j < l < |pieces| ==> !Binds(pieces[l], key)
    ensures key in QueryMap(pieces) && QueryMap(pieces)[key] == Split(pieces[j], '=')[1]
  {
    var init := pieces[..|pieces| - 1];
    if j < |init| {
      assert init[j] == pieces[j];
      forall l | j < l < |init|
        ensures !Binds(init[l], key)
      {
        assert init[l] == pieces[l];
      }
      QueryMapLast(init, key, j);
    }
  }

  /** The index of the first `c` in `s`, if any: Python's `str.index`, which raises when there is none. */
  function IndexOf(s: string, c: char): (r: Option<nat>)
    ensures r.None? ==> c !in s
    ensures r.Some? ==> r.value < |s| && s[r.value] == c && c !in s[..r.value]
  {
    if |s| == 0 then None
    else if s[0] == c then Some(0)
    else
      var rest := IndexOf(s[1..], c);
      if rest.None? then None
      else
        assert s[..rest.value + 1] == [s[0]] + s[1..][..rest.value];
        Some(rest.value + 1)
  }

  /**
   * `_parse_figurl_url`: fails when the URI has no '?'; otherwise reads the
   * query after the first '?' into a dictionary, a later binding of a key
   * overwriting an earlier one.
   */
  method ParseFigurlUrl(uri: string) returns (r: Result<map<string, string>>)
    ensures r.Failure? <==> '?' !in uri
    ensures r.Success? ==> r.value == QueryMap(Split(uri[IndexOf(uri, '?').value + 1..], '&'))
  {
    var ind := IndexOf(uri, '?');
    if ind.None? {
      return Failure("substring not found");
    }
    var q := uri[ind.value + 1..];
    var a := Split(q, '&');
    var ret: map<string, string> := map[];
    for i := 0 to |a|
      invariant ret == QueryMap(a[..i])
    {
      var x := Split(a[i], '=');
      if |x| == 2 {
        ret := ret[x[0] := x[1]];
      }
      assert a[..i + 1][..i] == a[..i];
    }
    assert a[..|a|] == a;
    return Success(ret);
  }
}
