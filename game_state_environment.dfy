/**
 * `GameStateEnvironment` (RulesEngine/src/core/game_state_environment.rs):
 * the positions of the boxes, held in a fixed array of `BOX_COUNT` slots.
 * Unused slots hold the sentinel `EMPTY_BOX`; after `complete_moves` the
 * slots are sorted, so that equal box sets get equal arrays.
 */
module Environments {
  import opened CoreModels
  import Bounds

  const BOX_COUNT: nat := 8

  /** i8::MAX, the largest coordinate of the environment's `Vec2`. */
  const I8_MAX: int := 127
  const I8_MIN: int := -128

  const EMPTY_BOX: Vec2 := Vec2(I8_MAX, I8_MAX)

  /** The environment is a value (it is cloned, compared and hashed as a map key). */
  datatype Environment = Environment(slots: seq<Vec2>)

  /** The `IVec2` to `Vec2` conversion: row from y, column from x. */
  function ToVec2(p: Bounds.IVec2): (v: Vec2)
    ensures v.i == p.y && v.j == p.x
  {
    Vec2(p.y, p.x)
  }

  predicate InI8Range(v: Vec2) {
    I8_MIN <= v.i <= I8_MAX && I8_MIN <= v.j <= I8_MAX
  }

  /** A position that can be stored as a live box: i8-sized and not the sentinel. */
  predicate Storable(v: Vec2) {
    InI8Range(v) && v != EMPTY_BOX
  }

  lemma StorableBelowEmpty(v: Vec2)
    requires Storable(v)
    ensures Lt(v, EMPTY_BOX)
  {
  }

  // ---------------------------------------------------------------------
  // Sorting: the reference definition and the in-place `sort_unstable`.
  // ---------------------------------------------------------------------

  predicate Sorted(s: seq<Vec2>) {
    forall x, y :: 0 <= x < y < |s| ==> Le(s[x], s[y])
  }

  /** Insert v before the first element it does not exceed. */
  function Insert(v: Vec2, s: seq<Vec2>): (r: seq<Vec2>)
    ensures multiset(r) == multiset(s) + multiset{v}
  {
    if s == [] then [v]
    else if Le(v, s[0]) then [v] + s
    else
      assert s == [s[0]] + s[1..];
      [s[0]] + Insert(v, s[1..])
  }

  /** Inserting into a sorted sequence keeps it sorted. */
  lemma {:induction false} InsertKeepsSorted(v: Vec2, s: seq<Vec2>)
    requires Sorted(s)
    ensures Sorted(Insert(v, s))
  {
    if s != [] && !Le(v, s[0]) {
      var rest := Insert(v, s[1..]);
      InsertKeepsSorted(v, s[1..]);
      forall k | 0 <= k < |rest|
        ensures Le(s[0], rest[k])
      {
        assert rest[k] in multiset(rest);
        if rest[k] != v {
          assert rest[k] in multiset(s[1..]);
          var m :| 0 <= m < |s[1..]| && s[1..][m] == rest[k];
          assert s[m + 1] == rest[k];
        }
      }
    }
  }

  /** Reference sort (insertion sort): a sorted permutation of its input. */
  function Sort(s: seq<Vec2>): (r: seq<Vec2>)
    ensures Sorted(r)
    ensures multiset(r) == multiset(s)
  {
    if s == [] then []
    else
      assert s == [s[0]] + s[1..];
      InsertKeepsSorted(s[0], Sort(s[1..]));
      Insert(s[0], Sort(s[1..]))
  }

  /** The head of a sorted sequence is below every element. */
  lemma HeadIsLeast(s: seq<Vec2>, v: Vec2)
    requires Sorted(s) && v in s
    ensures Le(s[0], v)
  {
    var k :| 0 <= k < |s| && s[k] == v;
    if k > 0 {
      assert Le(s[0], s[k]);
    }
  }

  lemma TailMultiset(s: seq<Vec2>)
    requires s != []
    ensures multiset(s[1..]) == multiset(s) - multiset{s[0]}
  {
    assert s == [s[0]] + s[1..];
  }

  /** A sorted arrangement of a multiset is unique. */
  lemma {:induction false} SortedPermutationUnique(a: seq<Vec2>, b: seq<Vec2>)
    requires Sorted(a) && Sorted(b) && multiset(a) == multiset(b)
    ensures a == b
  {
    assert |a| == |b| by { assert |multiset(a)| == |multiset(b)|; }
    if a != [] {
      assert b[0] in multiset(a);
      assert a[0] in multiset(b);
      HeadIsLeast(a, b[0]);
      HeadIsLeast(b, a[0]);
      TailMultiset(a);
      TailMultiset(b);
      SortedPermutationUnique(a[1..], b[1..]);
      assert a == [a[0]] + a[1..];
      assert b == [b[0]] + b[1..];
    }
  }

  /** Exchange two slots. */
  method Swap(a: array<Vec2>, x: int, y: int)
    requires 0 <= x < a.Length && 0 <= y < a.Length
    modifies a
    ensures a[..] == old(a[..])[x := old(a[y])][y := old(a[x])]
    ensures multiset(a[..]) == multiset(old(a[..]))
  {
    a[x], a[y] := a[y], a[x];
  }

  /** Move a[i] down into the sorted prefix a[..i]. */
  method InsertInPlace(a: array<Vec2>, i: int)
    requires 0 <= i < a.Length && Sorted(a[..i])
    modifies a
    ensures Sorted(a[..i + 1])
    ensures a[i + 1..] == old(a[i + 1..])
    ensures multiset(a[..]) == multiset(old(a[..]))
  {
    var j := i;
    while j > 0 && !Le(a[j - 1], a[j])
      invariant 0 <= j <= i
      invariant multiset(a[..]) == multiset(old(a[..]))
      invariant a[i + 1..] == old(a[i + 1..])
      invariant forall x, y :: 0 <= x < y <= i && y != j ==> Le(a[x], a[y])
      invariant forall y :: j < y <= i ==> Le(a[j], a[y])
    {
      Swap(a, j - 1, j);
      j := j - 1;
    }
  }

  /** `complete_moves` with `DEDUPLICATE_BOXES` set: sort the slots in place. */
  method CompleteMoves(a: array<Vec2>)
    modifies a
    ensures Sorted(a[..]) && multiset(a[..]) == multiset(old(a[..]))
    ensures a[..] == Sort(old(a[..]))
  {
    var i := 0;
    while i < a.Length
      invariant 0 <= i <= a.Length
      invariant Sorted(a[..i])
      invariant multiset(a[..]) == multiset(old(a[..]))
    {
      InsertInPlace(a, i);
      i := i + 1;
    }
    assert a[..a.Length] == a[..];
    SortedPermutationUnique(a[..], Sort(old(a[..])));
  }

  // ---------------------------------------------------------------------
  // Construction
  // ---------------------------------------------------------------------

  /** The input boxes in the first slots, the sentinel in the others. */
  function Filled(boxes: seq<Vec2>): (r: seq<Vec2>)
    requires |boxes| <= BOX_COUNT
    ensures |r| == BOX_COUNT && r[..|boxes|] == boxes
    ensures forall k :: |boxes| <= k < BOX_COUNT ==> r[k] == EMPTY_BOX
    ensures multiset(r) == multiset(boxes) + multiset(Padding(BOX_COUNT - |boxes|))
  {
    boxes + Padding(BOX_COUNT - |boxes|)
  }

  function Padding(n: nat): seq<Vec2> {
    seq(n, _ => EMPTY_BOX)
  }

  /** The environment with its slots in sorted order (the effect of `complete_moves`). */
  function Completed(env: Environment): (r: Environment)
    ensures Sorted(r.slots) && multiset(r.slots) == multiset(env.slots)
  {
    Environment(Sort(env.slots))
  }

  /** The environment `new` builds from already converted boxes. */
  function FromBoxes(boxes: seq<Vec2>): (r: Environment)
    requires |boxes| <= BOX_COUNT
    ensures |r.slots| == BOX_COUNT && Sorted(r.slots)
    ensures multiset(r.slots) == multiset(boxes) + multiset(Padding(BOX_COUNT - |boxes|))
  {
    Completed(Environment(Filled(boxes)))
  }

  function ConvertAll(boxes: seq<Bounds.IVec2>): (r: seq<Vec2>)
    ensures |r| == |boxes| && forall k :: 0 <= k < |boxes| ==> r[k] == ToVec2(boxes[k])
  {
    seq(|boxes|, k requires 0 <= k < |boxes| => ToVec2(boxes[k]))
  }

  /** The first half of `new`: a fresh slot array with the converted boxes in order, then the sentinel. */
  method FillSlots(boxes: seq<Bounds.IVec2>) returns (fixed: array<Vec2>)
    requires |boxes| <= BOX_COUNT
    ensures fresh(fixed) && fixed[..] == Filled(ConvertAll(boxes))
  {
    fixed := new Vec2[BOX_COUNT](_ => EMPTY_BOX);
    for k := 0 to |boxes|
      invariant fixed[..] == ConvertAll(boxes[..k]) + Padding(BOX_COUNT - k)
    {
      fixed[k] := ToVec2(boxes[k]);
      assert ConvertAll(boxes[..k + 1]) == ConvertAll(boxes[..k]) + [ToVec2(boxes[k])];
    }
    assert boxes[..|boxes|] == boxes;
  }

  /** `new`: fill the slots in order, pad with the sentinel, then sort in place. */
  method New(boxes: seq<Bounds.IVec2>) returns (env: Environment)
    requires |boxes| <= BOX_COUNT
    ensures env == FromBoxes(ConvertAll(boxes))
    ensures |env.slots| == BOX_COUNT
    ensures (forall k :: 0 <= k < |boxes| ==> Storable(ToVec2(boxes[k]))) ==>
      Normal(env) && IterBoxes(env) == Sort(ConvertAll(boxes))
  {
    var fixed := FillSlots(boxes);
    CompleteMoves(fixed);
    env := Environment(fixed[..]);
    FromBoxesFacts(boxes);
  }

  /** What `new` promises about the environment it builds. */
  lemma FromBoxesFacts(boxes: seq<Bounds.IVec2>)
    requires |boxes| <= BOX_COUNT
    ensures |FromBoxes(ConvertAll(boxes)).slots| == BOX_COUNT
    ensures (forall k :: 0 <= k < |boxes| ==> Storable(ToVec2(boxes[k]))) ==>
      Normal(FromBoxes(ConvertAll(boxes))) && IterBoxes(FromBoxes(ConvertAll(boxes))) == Sort(ConvertAll(boxes))
  {
    var live := ConvertAll(boxes);
    if forall k :: 0 <= k < |boxes| ==> Storable(ToVec2(boxes[k])) {
      assert forall k :: 0 <= k < |live| ==> Storable(live[k]);
      NewYieldsSortedInput(live);
    }
  }

  /** `new_empty`: every slot holds the sentinel. */
  function NewEmpty(): (env: Environment)
    ensures |env.slots| == BOX_COUNT && forall k :: 0 <= k < BOX_COUNT ==> env.slots[k] == EMPTY_BOX
    ensures IterBoxes(env) == [] && Normal(env)
  {
    Environment(Padding(BOX_COUNT))
  }

  // ---------------------------------------------------------------------
  // Queries
  // ---------------------------------------------------------------------

  /** The longest prefix without the sentinel (`take_while`). */
  function TakeLive(s: seq<Vec2>): (r: seq<Vec2>)
    ensures |r| <= |s| && r == s[..|r|]
    ensures EMPTY_BOX !in r
    ensures |r| < |s| ==> s[|r|] == EMPTY_BOX
  {
    if s == [] || s[0] == EMPTY_BOX then []
    else [s[0]] + TakeLive(s[1..])
  }

  /** `iter_boxes`: the live boxes, up to the first sentinel slot. */
  function IterBoxes(env: Environment): (r: seq<Vec2>)
    ensures |r| <= |env.slots| && r == env.slots[..|r|] && EMPTY_BOX !in r
    ensures |r| < |env.slots| ==> env.slots[|r|] == EMPTY_BOX
  {
    TakeLive(env.slots)
  }

  /** Every slot after the live boxes holds the sentinel, as `new` and `complete_moves` leave it. */
  predicate Normal(env: Environment) {
    |env.slots| == BOX_COUNT &&
    forall k :: |IterBoxes(env)| <= k < |env.slots| ==> env.slots[k] == EMPTY_BOX
  }

  /** `has_box_at`: p occupies a slot that comes before every sentinel slot. */
  function HasBoxAt(env: Environment, p: Vec2): (r: bool)
    requires p != EMPTY_BOX
    ensures r <==> (exists k :: 0 <= k < |env.slots| && env.slots[k] == p &&
                     forall m :: 0 <= m < k ==> env.slots[m] != EMPTY_BOX)
  {
    var live := IterBoxes(env);
    if p in live then
      var k :| 0 <= k < |live| && live[k] == p;
      assert forall m :: 0 <= m < k ==> env.slots[m] == live[m];
      true
    else
      assert forall k :: 0 <= k < |env.slots| && env.slots[k] == p ==> k >= |live|;
      false
  }

  function FirstIndex(s: seq<Vec2>, p: Vec2): (r: Option<nat>)
    ensures r.None? <==> p !in s
    ensures r.Some? ==> r.value < |s| && s[r.value] == p && p !in s[..r.value]
  {
    if s == [] then None
    else if s[0] == p then Some(0)
    else
      match FirstIndex(s[1..], p)
      case None => None
      case Some(k) =>
        assert s[..k + 1] == [s[0]] + s[1..][..k];
        Some(k + 1)
  }

  /** `index_of_box_at`: the first live slot holding p, None when p is not a live box. */
  function IndexOfBoxAt(env: Environment, p: Vec2): (r: Option<nat>)
    requires p != EMPTY_BOX
    ensures r.None? <==> !HasBoxAt(env, p)
    ensures r.Some? ==> (r.value < |IterBoxes(env)| && env.slots[r.value] == p &&
                         forall m :: 0 <= m < r.value ==> env.slots[m] != p)
  {
    var r := FirstIndex(IterBoxes(env), p);
    assert r.Some? ==> forall m :: 0 <= m < r.value ==> env.slots[m] == IterBoxes(env)[..r.value][m];
    r
  }

  /** `set_box`: slot k holds p, every other slot is unchanged; no sorting happens. */
  function SetBox(env: Environment, k: nat, p: Vec2): (r: Environment)
    requires k < |env.slots| && p != EMPTY_BOX
    ensures |r.slots| == |env.slots| && r.slots[k] == p
    ensures forall m :: 0 <= m < |env.slots| && m != k ==> r.slots[m] == env.slots[m]
  {
    Environment(env.slots[k := p])
  }

  /** `PartialEq`: two environments are equal when their live boxes agree, in order. */
  predicate EnvEq(a: Environment, b: Environment)
    ensures a == b ==> EnvEq(a, b)
    ensures EnvEq(a, b) ==> HashFeed(a) == HashFeed(b)
  {
    IterBoxes(a) == IterBoxes(b)
  }

  /** `Hash`: the sequence of values the environment feeds to the hasher. */
  function HashFeed(env: Environment): (r: seq<Vec2>)
    ensures |r| <= |env.slots| && r == env.slots[..|r|] && EMPTY_BOX !in r
  {
    IterBoxes(env)
  }

  // ---------------------------------------------------------------------
  // Properties
  // ---------------------------------------------------------------------

  lemma {:induction false} TakeLiveOfPadded(s: seq<Vec2>, n: nat)
    requires EMPTY_BOX !in s
    ensures TakeLive(s + Padding(n)) == s
  {
    if s == [] {
      if n > 0 {
        assert (s + Padding(n))[0] == EMPTY_BOX;
      }
    } else {
      assert (s + Padding(n))[1..] == s[1..] + Padding(n);
      TakeLiveOfPadded(s[1..], n);
    }
  }

  /** Sorting the padded slots puts the live boxes, sorted, in front of the sentinels. */
  lemma SortOfFilled(live: seq<Vec2>)
    requires |live| <= BOX_COUNT && forall k :: 0 <= k < |live| ==> Storable(live[k])
    ensures Sort(Filled(live)) == Sort(live) + Padding(BOX_COUNT - |live|)
  {
    var sorted := Sort(live);
    var c := sorted + Padding(BOX_COUNT - |live|);
    forall x | 0 <= x < |sorted|
      ensures Lt(sorted[x], EMPTY_BOX)
    {
      assert sorted[x] in multiset(live);
      var k :| 0 <= k < |live| && live[k] == sorted[x];
      StorableBelowEmpty(live[k]);
    }
    SortedThenPadding(sorted, BOX_COUNT - |live|);
    assert multiset(c) == multiset(Filled(live));
    SortedPermutationUnique(Sort(Filled(live)), c);
  }

  /** A sorted sequence of elements below the sentinel, followed by sentinels, is sorted. */
  lemma SortedThenPadding(s: seq<Vec2>, n: nat)
    requires Sorted(s) && forall x :: 0 <= x < |s| ==> Lt(s[x], EMPTY_BOX)
    ensures Sorted(s + Padding(n))
  {
    var c := s + Padding(n);
    forall x, y | 0 <= x < y < |c|
      ensures Le(c[x], c[y])
    {
      if y >= |s| {
        assert c[y] == EMPTY_BOX;
        if x < |s| {
          assert c[x] == s[x];
        }
      } else {
        assert c[x] == s[x] && c[y] == s[y];
      }
    }
  }

  lemma SortedStorableHasNoSentinel(live: seq<Vec2>)
    requires forall k :: 0 <= k < |live| ==> Storable(live[k])
    ensures EMPTY_BOX !in Sort(live) && |Sort(live)| == |live|
  {
    var sorted := Sort(live);
    forall x | 0 <= x < |sorted|
      ensures sorted[x] != EMPTY_BOX
    {
      assert sorted[x] in multiset(live);
      var k :| 0 <= k < |live| && live[k] == sorted[x];
    }
    assert |sorted| == |live| by { assert |multiset(sorted)| == |multiset(live)|; }
  }

  /**
   * After `new` from storable boxes, `iter_boxes` yields exactly the input
   * boxes in sorted order and the remaining slots hold the sentinel.
   */
  lemma NewYieldsSortedInput(live: seq<Vec2>)
    requires |live| <= BOX_COUNT && forall k :: 0 <= k < |live| ==> Storable(live[k])
    ensures IterBoxes(FromBoxes(live)) == Sort(live)
    ensures Normal(FromBoxes(live))
  {
    SortOfFilled(live);
    SortedStorableHasNoSentinel(live);
    TakeLiveOfPadded(Sort(live), BOX_COUNT - |live|);
  }

  /** `has_box_at` after `new` is membership in the input. */
  lemma HasBoxAtAfterNew(live: seq<Vec2>, p: Vec2)
    requires |live| <= BOX_COUNT && forall k :: 0 <= k < |live| ==> Storable(live[k])
    requires p != EMPTY_BOX
    ensures HasBoxAt(FromBoxes(live), p) <==> p in live
  {
    NewYieldsSortedInput(live);
    assert p in Sort(live) <==> p in multiset(live);
  }

  /** Environments built from permutations of the same boxes are equal and hash alike. */
  lemma OrderIndependent(b1: seq<Vec2>, b2: seq<Vec2>)
    requires |b1| <= BOX_COUNT && multiset(b1) == multiset(b2)
    ensures |b2| == |b1|
    ensures FromBoxes(b1) == FromBoxes(b2)
    ensures EnvEq(FromBoxes(b1), FromBoxes(b2)) && HashFeed(FromBoxes(b1)) == HashFeed(FromBoxes(b2))
  {
    assert |b2| == |b1| by { assert |multiset(b1)| == |multiset(b2)|; }
    SortedPermutationUnique(Sort(Filled(b1)), Sort(Filled(b2)));
  }

  /** Equality and hashing look at nothing from the first sentinel slot on. */
  lemma EqualityIgnoresTail(a: Environment, b: Environment, n: nat)
    requires n < |a.slots| && n < |b.slots|
    requires a.slots[..n] == b.slots[..n] && EMPTY_BOX !in a.slots[..n]
    requires a.slots[n] == EMPTY_BOX && b.slots[n] == EMPTY_BOX
    ensures IterBoxes(a) == a.slots[..n]
    ensures EnvEq(a, b) && HashFeed(a) == HashFeed(b)
  {
    LiveUpToFirstSentinel(a.slots, n);
    LiveUpToFirstSentinel(b.slots, n);
  }

  lemma LiveUpToFirstSentinel(s: seq<Vec2>, n: nat)
    requires n < |s| && EMPTY_BOX !in s[..n] && s[n] == EMPTY_BOX
    ensures TakeLive(s) == s[..n]
  {
  }

  /** On normal environments the box-wise equality coincides with structural equality. */
  lemma NormalEqualityIsStructural(a: Environment, b: Environment)
    requires Normal(a) && Normal(b)
    ensures EnvEq(a, b) <==> a == b
  {
    if EnvEq(a, b) {
      var n := |IterBoxes(a)|;
      assert a.slots[..n] == b.slots[..n];
      assert a.slots == b.slots by {
        forall k | 0 <= k < BOX_COUNT
          ensures a.slots[k] == b.slots[k]
        {
          if k < n {
            assert a.slots[k] == a.slots[..n][k];
            assert b.slots[k] == b.slots[..n][k];
          }
        }
      }
    }
  }

  /**
   * Moving live box k of a normal environment to a storable position and
   * sorting again gives the environment `new` builds from the edited box list.
   */
  lemma MoveBoxThenComplete(env: Environment, k: nat, p: Vec2)
    requires Normal(env) && k < |IterBoxes(env)| && p != EMPTY_BOX
    ensures Completed(SetBox(env, k, p)) == FromBoxes(IterBoxes(env)[k := p])
  {
    var live := IterBoxes(env);
    assert SetBox(env, k, p).slots == Filled(live[k := p]);
  }
}
