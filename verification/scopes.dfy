/**
 * The scope stack `_scope` and its operations `setScope`, `getScope`,
 * `pushScope`, `popScope`, `addOverlappingScope` and
 * `removeOverlappingScope`.
 *
 * A frame is either a single scope id or an array of ids. Arrays are
 * objects: `addOverlappingScope` on an array top mutates that array and pushes
 * the SAME array again, so two stack slots can share one array. Arrays
 * therefore live in an arena (`arrays`), and a frame holds a reference into it.
 */
module ScopeStack {
  import opened Arrays

  /** The sentinel scope: every binding made without a scope lives in it. */
  const All := "all"

  datatype Frame = Single(id: string) | Shared(ref: nat)

  datatype Stack = Stack(frames: seq<Frame>, arrays: seq<seq<string>>)
  {
    /** Every array frame refers to an allocated array. */
    ghost predicate Valid()
    {
      forall i :: 0 <= i < |frames| && frames[i].Shared? ==> frames[i].ref < |arrays|
    }
  }

  const Empty := Stack([], [])

  /** What `getScope` returns: a single id (or the sentinel), or an array's current contents. */
  datatype Scope = Named(id: string) | Group(ids: seq<string>)

  /** The ids a current scope stands for. */
  function Members(s: Scope): seq<string>
  {
    match s
    case Named(id) => [id]
    case Group(ids) => ids
  }

  /** The dispatch rule for scopes: member of an array top, equal to a single top, or the sentinel. */
  predicate Visible(cur: Scope, scope: string)
  {
    (cur.Group? && scope in cur.ids) || (cur.Named? && scope == cur.id) || scope == All
  }

  /** `getScope`: the top frame, or the sentinel when the stack is empty. */
  function GetScope(st: Stack): (r: Scope)
    requires st.Valid()
    ensures |st.frames| == 0 ==> r == Named(All)
    ensures |st.frames| > 0 && st.frames[|st.frames| - 1].Single? ==> r == Named(st.frames[|st.frames| - 1].id)
    ensures |st.frames| > 0 && st.frames[|st.frames| - 1].Shared? ==> r == Group(st.arrays[st.frames[|st.frames| - 1].ref])
  {
    if |st.frames| == 0 then Named(All)
    else match st.frames[|st.frames| - 1]
      case Single(id) => Named(id)
      case Shared(ref) => Group(st.arrays[ref])
  }

  /** `setScope`: a truthy id replaces the stack with that single frame; a falsy one ("") empties it. */
  function SetScope(st: Stack, s: string): (r: Stack)
    requires st.Valid()
    ensures r.Valid()
    ensures s == "" ==> r.frames == [] && GetScope(r) == Named(All)
    ensures s != "" ==> r.frames == [Single(s)] && GetScope(r) == Named(s)
  {
    if s != "" then st.(frames := [Single(s)]) else st.(frames := [])
  }

  /** `pushScope`: a single frame on top; the frames below are kept. */
  function PushScope(st: Stack, s: string): (r: Stack)
    requires st.Valid()
    ensures r.Valid()
    ensures |r.frames| == |st.frames| + 1 && r.frames[..|st.frames|] == st.frames
    ensures GetScope(r) == Named(s)
    ensures r.arrays == st.arrays
  {
    st.(frames := st.frames + [Single(s)])
  }

  /** The top frame is an array that holds `s`. */
  predicate TopHolds(st: Stack, s: string)
    requires st.Valid()
  {
    |st.frames| > 0 && st.frames[|st.frames| - 1].Shared? && s in st.arrays[st.frames[|st.frames| - 1].ref]
  }

  /** `ys` is `xs` with the first occurrence of `x` taken out. */
  ghost predicate RemovesFirst(xs: seq<string>, x: string, ys: seq<string>)
  {
    exists i :: 0 <= i < |xs| && xs[i] == x && x !in xs[..i] && ys == xs[..i] + xs[i + 1..]
  }

  /**
   * `removeOverlappingScope`: unless the top is an array holding `s`,
   * nothing changes. Otherwise the first `s` is spliced out of that array
   * (every slot sharing the array sees it), and the top frame is popped if
   * the array became empty.
   */
  function RemoveOverlappingScope(st: Stack, s: string): (r: Stack)
    requires st.Valid()
    ensures r.Valid()
    ensures !TopHolds(st, s) ==> r == st
    ensures TopHolds(st, s) ==>
      var ref := st.frames[|st.frames| - 1].ref;
      && |r.arrays| == |st.arrays|
      && (forall j :: 0 <= j < |st.arrays| && j != ref ==> r.arrays[j] == st.arrays[j])
      && RemovesFirst(st.arrays[ref], s, r.arrays[ref])
      && r.frames == if r.arrays[ref] == [] then st.frames[..|st.frames| - 1] else st.frames
  {
    if |st.frames| == 0 then st
    else match st.frames[|st.frames| - 1]
      case Single(_) => st
      case Shared(ref) =>
        var ids := st.arrays[ref];
        var i := IndexOf(ids, s);
        if i < 0 then st
        else
          var ids' := RemoveAt(ids, i);
          assert ids' == ids[..i] + ids[i + 1..];
          var arrays := st.arrays[ref := ids'];
          if |ids'| == 0 then Stack(st.frames[..|st.frames| - 1], arrays)
          else Stack(st.frames, arrays)
  }

  /** The frames `popScope` keeps: those before the first single frame equal to `s` (`!==` never stops at an array). */
  function Truncate(frames: seq<Frame>, s: string): (r: seq<Frame>)
    ensures r <= frames
    ensures Single(s) !in r
    ensures |r| < |frames| ==> frames[|r|] == Single(s)
  {
    if |frames| == 0 || frames[0] == Single(s) then []
    else
      var rest := Truncate(frames[1..], s);
      assert frames == [frames[0]] + frames[1..];
      [frames[0]] + rest
  }

  /** `popScope`: truncate at the first single frame `s`, then `removeOverlappingScope(s)` on what is left. */
  function PopScope(st: Stack, s: string): (r: Stack)
    requires st.Valid()
    ensures r.Valid()
    ensures r.frames <= st.frames
    ensures Single(s) !in r.frames
    ensures Single(s) in st.frames ==> |r.frames| <= |Truncate(st.frames, s)|
  {
    var kept := Stack(Truncate(st.frames, s), st.arrays);
    RemoveOverlappingScope(kept, s)
  }

  /**
   * `addOverlappingScope`: on the sentinel it is `setScope(s)`. On a single
   * top `x` it pushes a fresh array `[x, s]`. On an array top it appends `s`
   * to THAT array and pushes it again, so the two top slots share it.
   */
  function AddOverlappingScope(st: Stack, s: string): (r: Stack)
    requires st.Valid()
    ensures r.Valid()
    ensures GetScope(st) == Named(All) ==> r == SetScope(st, s)
    ensures GetScope(st) != Named(All) ==>
      && |r.frames| == |st.frames| + 1
      && r.frames[..|st.frames|] == st.frames
      && GetScope(r) == Group(Members(GetScope(st)) + [s])
    ensures GetScope(st) != Named(All) && GetScope(st).Named? ==>
      && r.frames[|st.frames|] == Shared(|st.arrays|)
      && r.arrays == st.arrays + [[GetScope(st).id, s]]
    ensures GetScope(st).Group? ==>
      var ref := st.frames[|st.frames| - 1].ref;
      && r.frames[|st.frames|] == Shared(ref)
      && r.arrays == st.arrays[ref := st.arrays[ref] + [s]]
  {
    var cur := GetScope(st);
    if cur == Named(All) then SetScope(st, s)
    else match st.frames[|st.frames| - 1]
      case Shared(ref) =>
        Stack(st.frames + [Shared(ref)], st.arrays[ref := st.arrays[ref] + [s]])
      case Single(x) =>
        Stack(st.frames + [Shared(|st.arrays|)], st.arrays + [[x, s]])
  }

  /** Pushing a scope and popping it restores the stack, when `s` is not already a single frame and the top is not an array holding it. */
  lemma PushPop(st: Stack, s: string)
    requires st.Valid()
    requires Single(s) !in st.frames
    requires !TopHolds(st, s)
    ensures PopScope(PushScope(st, s), s) == st
  {
    TruncatePushed(st.frames, s);
  }

  /** Truncating at a frame pushed on top of frames that do not contain it gives those frames back. */
  lemma {:induction false} TruncatePushed(frames: seq<Frame>, s: string)
    requires Single(s) !in frames
    ensures Truncate(frames + [Single(s)], s) == frames
  {
    if |frames| > 0 {
      assert (frames + [Single(s)])[1..] == frames[1..] + [Single(s)];
      TruncatePushed(frames[1..], s);
      assert frames == [frames[0]] + frames[1..];
    }
  }

  /** Adding an overlapping scope keeps every scope that was visible and makes `s` visible too. */
  lemma OverlapAddsVisibility(st: Stack, s: string, y: string)
    requires st.Valid()
    requires GetScope(st) != Named(All)
    ensures Visible(GetScope(AddOverlappingScope(st, s)), y) <==> Visible(GetScope(st), y) || y == s
  {
  }

  /** Taking the first `s` out of `ids + [s]` leaves the members of `ids`. */
  lemma RemoveFirstAppended(ids: seq<string>, s: string, ys: seq<string>)
    requires RemovesFirst(ids + [s], s, ys)
    ensures |ys| == |ids|
    ensures forall y :: y in ys <==> y in ids
  {
    var xs := ids + [s];
    var k :| 0 <= k < |xs| && xs[k] == s && s !in xs[..k] && ys == xs[..k] + xs[k + 1..];
    if k == |ids| {
      assert xs[..k] == ids;
      assert xs[k + 1..] == [];
    } else {
      var pre, post := ids[..k], ids[k + 1..];
      assert xs[..k] == pre;
      assert xs[k + 1..] == post + [s];
      assert ids == pre + [s] + post;
      Associative(pre, post, [s]);
      assert ys == pre + post + [s];
      forall y ensures y in ys <==> y in ids {
        assert y in ys <==> y in pre || y in post || y == s;
        assert y in ids <==> y in pre || y == s || y in post;
      }
    }
  }

  /** Removing the scope just added overlapping restores which scopes are visible. */
  lemma OverlapRemoveRestores(st: Stack, s: string, y: string)
    requires st.Valid()
    requires GetScope(st) != Named(All)
    ensures Visible(GetScope(RemoveOverlappingScope(AddOverlappingScope(st, s), s)), y) <==> Visible(GetScope(st), y)
  {
    if GetScope(st).Named? {
      OverlapOnSingle(st, s);
    } else {
      OverlapOnArray(st, s);
    }
  }

  lemma OverlapOnSingle(st: Stack, s: string)
    requires st.Valid()
    requires GetScope(st) != Named(All) && GetScope(st).Named?
    ensures GetScope(RemoveOverlappingScope(AddOverlappingScope(st, s), s)).Group?
    ensures forall y :: y in GetScope(RemoveOverlappingScope(AddOverlappingScope(st, s), s)).ids <==> y == GetScope(st).id
  {
    var added := AddOverlappingScope(st, s);
    var x := GetScope(st).id;
    var ref := |st.arrays|;
    assert added.frames[|added.frames| - 1] == Shared(ref);
    assert added.arrays[ref] == [x] + [s];
    assert TopHolds(added, s);
    var r := RemoveOverlappingScope(added, s);
    RemoveFirstAppended([x], s, r.arrays[ref]);
    assert r.frames == added.frames;
  }

  lemma OverlapOnArray(st: Stack, s: string)
    requires st.Valid()
    requires GetScope(st).Group?
    ensures GetScope(RemoveOverlappingScope(AddOverlappingScope(st, s), s)).Group?
    ensures forall y :: y in GetScope(RemoveOverlappingScope(AddOverlappingScope(st, s), s)).ids <==> y in GetScope(st).ids
  {
    var added := AddOverlappingScope(st, s);
    var ids := GetScope(st).ids;
    var ref := st.frames[|st.frames| - 1].ref;
    assert added.frames[|added.frames| - 1] == Shared(ref);
    assert added.arrays[ref] == ids + [s];
    assert TopHolds(added, s);
    var r := RemoveOverlappingScope(added, s);
    RemoveFirstAppended(ids, s, r.arrays[ref]);
    if r.arrays[ref] == [] {
      assert r.frames == st.frames;
      assert GetScope(r) == Group([]);
    } else {
      assert r.frames == added.frames;
    }
  }

  /**
   * An array frame is shared: after overlapping `b` and then `c` on `a`,
   * both array slots show `[a, b, c]`, and removing `b` changes both.
   */
  lemma SharedArrayAliasing()
    ensures var st := AddOverlappingScope(AddOverlappingScope(SetScope(Empty, "a"), "b"), "c");
      && st.frames == [Single("a"), Shared(0), Shared(0)]
      && st.arrays == [["a", "b", "c"]]
    ensures var st := RemoveOverlappingScope(AddOverlappingScope(AddOverlappingScope(SetScope(Empty, "a"), "b"), "c"), "b");
      && st.frames == [Single("a"), Shared(0), Shared(0)]
      && st.arrays == [["a", "c"]]
  {
    OverlapTwice();
    RemoveFromShared(AddOverlappingScope(AddOverlappingScope(SetScope(Empty, "a"), "b"), "c"));
  }

  lemma OverlapTwice()
    ensures AddOverlappingScope(AddOverlappingScope(SetScope(Empty, "a"), "b"), "c")
      == Stack([Single("a"), Shared(0), Shared(0)], [["a", "b", "c"]])
  {
    var s1 := SetScope(Empty, "a");
    assert s1 == Stack([Single("a")], []);
    var s2 := AddOverlappingScope(s1, "b");
    assert s2 == Stack([Single("a"), Shared(0)], [["a", "b"]]);
    assert GetScope(s2) == Group(["a", "b"]);
    assert ["a", "b"] + ["c"] == ["a", "b", "c"];
  }

  lemma RemoveFromShared(st: Stack)
    requires st == Stack([Single("a"), Shared(0), Shared(0)], [["a", "b", "c"]])
    ensures RemoveOverlappingScope(st, "b") == Stack([Single("a"), Shared(0), Shared(0)], [["a", "c"]])
  {
    assert IndexOf(["a", "b", "c"], "b") == 1;
    assert RemoveAt(["a", "b", "c"], 1) == ["a", "c"];
  }
}
