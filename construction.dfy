/**
 * The per-cell contribution list and its resolver (construction.js).
 *
 * Each screen cell owns a Construction: a list of contributions ordered by
 * z-index and keyed by the owning surface's id.  `Apply` inserts, replaces
 * or removes an owner's entry; `DetermineOutput` folds the list, lowest z
 * first, into one glyph with a foreground and a background colour.
 *
 * The source links nodes through `next` pointers behind a sentinel and
 * walks them with a `runner`; here the list is a sequence field and the
 * runner is the index of the node after it.
 */
module Compositor {
  import opened Colors
  import opened Wrappers

  /** What a surface submits for one cell (manager.js `point` / `pixel`). */
  datatype Contribution =
    | Point(code: int, fg: int, bg: int)
    | Pixel(top: int, bottom: int)

  /** A list node (`Node`): owner id, z-index and contribution. */
  datatype Entry = Entry(id: int, z: int, data: Contribution)

  /**
   * The arguments of `requestDraw(id, data, x, y, zIndex)`: an owner's
   * contribution to a screen cell, `null` to withdraw it.
   */
  datatype DrawRequest = DrawRequest(id: int, data: Option<Contribution>, x: int, y: int, z: int)

  /** The resolved cell: glyph code and the two colours, which can be NaN. */
  datatype Output = Output(code: int, fg: Num, bg: Num)

  const SpaceCode: int := 32
  /** U+2580 UPPER HALF BLOCK */
  const UpperHalf: int := 9600
  /** U+2584 LOWER HALF BLOCK */
  const LowerHalf: int := 9604

  // ---------------------------------------------------------------------
  // The list as a value

  function Ids(s: seq<Entry>): set<int>
  {
    set i | 0 <= i < |s| :: s[i].id
  }

  /** Ascending by z-index. */
  ghost predicate Sorted(s: seq<Entry>)
  {
    forall i, j :: 0 <= i < j < |s| ==> s[i].z <= s[j].z
  }

  /** No owner appears twice. */
  ghost predicate Unique(s: seq<Entry>)
  {
    forall i, j :: 0 <= i < j < |s| ==> s[i].id != s[j].id
  }

  /** Every entry sits at the z-index its owner always uses. */
  ghost predicate ZConsistent(s: seq<Entry>, zOf: int -> int)
  {
    forall i :: 0 <= i < |s| ==> s[i].z == zOf(s[i].id)
  }

  /** The first index holding `id`, or `|s|` when there is none. */
  function IndexOf(s: seq<Entry>, id: int): (i: nat)
    ensures i <= |s|
    ensures forall j :: 0 <= j < i ==> s[j].id != id
    ensures i < |s| ==> s[i].id == id
    ensures i == |s| <==> id !in Ids(s)
  {
    if s == [] then 0
    else if s[0].id == id then 0
    else
      var i := 1 + IndexOf(s[1..], id);
      assert id in Ids(s[1..]) ==> id in Ids(s) by {
        if id in Ids(s[1..]) {
          var k :| 0 <= k < |s[1..]| && s[1..][k].id == id;
          assert s[k + 1].id == id;
        }
      }
      i
  }

  /** The first index whose z-index is strictly larger than `z`, or `|s|`. */
  function InsertPos(s: seq<Entry>, z: int): (p: nat)
    ensures p <= |s|
    ensures forall j :: 0 <= j < p ==> s[j].z <= z
    ensures p < |s| ==> z < s[p].z
  {
    if s == [] then 0
    else if z < s[0].z then 0
    else 1 + InsertPos(s[1..], z)
  }

  /**
   * What `addSorted` does to the list: walk from the front; the first node
   * of the same owner is replaced where it stands; otherwise the new node
   * goes before the first node with a strictly larger z-index, or last.
   */
  function Inserted(s: seq<Entry>, e: Entry): (r: seq<Entry>)
    ensures |s| <= |r| <= |s| + 1
  {
    if s == [] then [e]
    else if s[0].id == e.id then [e] + s[1..]
    else if e.z < s[0].z then [e] + s
    else [s[0]] + Inserted(s[1..], e)
  }

  /** Whether `addSorted` ends by replacing a node (and so leaves `addedIDs` alone). */
  predicate Replaces(s: seq<Entry>, e: Entry): (b: bool)
    ensures b ==> IndexOf(s, e.id) < |s|
  {
    s != [] && (s[0].id == e.id || (!(e.z < s[0].z) && Replaces(s[1..], e)))
  }

  /** What `deleteById` does to the list: unlink the first node of `id`. */
  function Deleted(s: seq<Entry>, id: int): (r: seq<Entry>)
    ensures |r| <= |s|
  {
    if s == [] then []
    else if s[0].id == id then s[1..]
    else [s[0]] + Deleted(s[1..], id)
  }

  /** `addSorted`'s walk passes over the nodes of other owners with z-index at most the new one's. */
  lemma {:induction false} InsertedPrefix(s: seq<Entry>, k: nat, e: Entry)
    requires k <= |s| && forall j :: 0 <= j < k ==> s[j].id != e.id && e.z >= s[j].z
    ensures Inserted(s, e) == s[..k] + Inserted(s[k..], e)
  {
    if k > 0 {
      var rest := Inserted(s[k..], e);
      assert Inserted(s[1..], e) == s[1..][..k - 1] + rest by {
        InsertedPrefix(s[1..], k - 1, e);
        assert s[1..][k - 1..] == s[k..];
      }
      assert s[..k] == [s[0]] + s[1..][..k - 1];
      calc {
        Inserted(s, e);
        [s[0]] + Inserted(s[1..], e);
        [s[0]] + (s[1..][..k - 1] + rest);
        ([s[0]] + s[1..][..k - 1]) + rest;
      }
    }
  }

  /** Passing those nodes does not decide whether the walk ends by replacing one. */
  lemma {:induction false} ReplacesPrefix(s: seq<Entry>, k: nat, e: Entry)
    requires k <= |s| && forall j :: 0 <= j < k ==> s[j].id != e.id && e.z >= s[j].z
    ensures Replaces(s, e) == Replaces(s[k..], e)
  {
    if k > 0 {
      ReplacesPrefix(s[1..], k - 1, e);
      assert s[1..][k - 1..] == s[k..];
    }
  }

  /** `deleteById`'s walk passes over the nodes of other owners unchanged. */
  lemma {:induction false} DeletedPrefix(s: seq<Entry>, k: nat, id: int)
    requires k <= |s| && forall j :: 0 <= j < k ==> s[j].id != id
    ensures Deleted(s, id) == s[..k] + Deleted(s[k..], id)
  {
    if k > 0 {
      var rest := Deleted(s[k..], id);
      assert Deleted(s[1..], id) == s[1..][..k - 1] + rest by {
        DeletedPrefix(s[1..], k - 1, id);
        assert s[1..][k - 1..] == s[k..];
      }
      assert s[..k] == [s[0]] + s[1..][..k - 1];
      calc {
        Deleted(s, id);
        [s[0]] + Deleted(s[1..], id);
        [s[0]] + (s[1..][..k - 1] + rest);
        ([s[0]] + s[1..][..k - 1]) + rest;
      }
    }
  }

  /** What `apply` does to the list: a contribution upserts, `null` deletes. */
  function Applied(s: seq<Entry>, id: int, z: int, data: Option<Contribution>): (r: seq<Entry>)
    ensures data.Some? ==> Entry(id, z, data.value) in r
    ensures data.None? && IndexOf(s, id) == |s| ==> r == s
  {
    if data.Some? then
      InsertedHas(s, Entry(id, z, data.value));
      Inserted(s, Entry(id, z, data.value))
    else
      DeletedRemovesFirst(s, id);
      Deleted(s, id)
  }

  /** The entry `addSorted` is given ends up in the list. */
  lemma {:induction false} InsertedHas(s: seq<Entry>, e: Entry)
    ensures e in Inserted(s, e)
  {
    if s != [] && s[0].id != e.id && !(e.z < s[0].z) {
      InsertedHas(s[1..], e);
    }
  }

  // ---------------------------------------------------------------------
  // Properties of the list operations

  /**
   * Deleting removes exactly the first entry of that owner and keeps every
   * other entry in its relative order; an absent owner leaves the list alone.
   */
  lemma DeletedRemovesFirst(s: seq<Entry>, id: int)
    ensures var i := IndexOf(s, id);
            Deleted(s, id) == if i < |s| then s[..i] + s[i + 1..] else s
  {
    var i := IndexOf(s, id);
    DeletedPrefix(s, i, id);
    if i < |s| {
      assert s[i..][1..] == s[i + 1..];
    } else {
      assert s[..i] == s;
    }
  }

  /**
   * Inserting an owner not yet present puts its entry after every entry
   * with a z-index at most its own and before the first larger one.
   */
  lemma {:induction false} InsertedAbsentAt(s: seq<Entry>, e: Entry)
    requires e.id !in Ids(s)
    ensures var p := InsertPos(s, e.z);
            Inserted(s, e) == s[..p] + [e] + s[p..]
  {
    if s != [] {
      assert s[0].id != e.id;
      if !(e.z < s[0].z) {
        var r := s[1..];
        InsertedAbsentAt(r, e);
        var p := InsertPos(r, e.z);
        assert s[..p + 1] == [s[0]] + r[..p];
        assert s[p + 1..] == r[p..];
        assert [s[0]] + (r[..p] + [e] + r[p..]) == ([s[0]] + r[..p]) + [e] + r[p..];
      }
    }
  }

  /** Inserting a new owner into a z-sorted list keeps it sorted. */
  lemma {:induction false} InsertedAbsentSorted(s: seq<Entry>, e: Entry)
    requires Sorted(s) && e.id !in Ids(s)
    ensures Sorted(Inserted(s, e))
    ensures |Inserted(s, e)| == |s| + 1
  {
    InsertedAbsentAt(s, e);
    var p := InsertPos(s, e.z);
    var t := s[..p] + [e] + s[p..];
    forall i, j | 0 <= i < j < |t| ensures t[i].z <= t[j].z {
      if i != p {
        InsertedAtIndex(s, e, p, i);
      }
      if j != p {
        InsertedAtIndex(s, e, p, j);
      }
      if i == p {
        assert s[p].z <= s[j - 1].z;
      }
    }
  }

  /**
   * Re-applying an owner whose first entry sits at index `i` of a sorted
   * list, with a z-index at least the old one, replaces that entry where it
   * stands: the length and every other entry are unchanged.
   */
  lemma {:induction false} InsertedReplacesInPlace(s: seq<Entry>, e: Entry, i: nat)
    requires Sorted(s) && i < |s| && s[i].id == e.id && s[i].z <= e.z
    requires forall j :: 0 <= j < i ==> s[j].id != e.id
    ensures Inserted(s, e) == s[i := e]
    ensures Replaces(s, e)
  {
    if i > 0 {
      assert s[0].z <= s[i].z;
      InsertedReplacesInPlace(s[1..], e, i - 1);
      assert [s[0]] + s[1..][i - 1 := e] == s[i := e];
    }
  }

  /** An owner that is absent is never "replaced". */
  lemma {:induction false} AbsentNotReplaced(s: seq<Entry>, e: Entry)
    requires e.id !in Ids(s)
    ensures !Replaces(s, e)
  {
    if s != [] {
      assert s[0].id != e.id;
      AbsentNotReplaced(s[1..], e);
    }
  }

  /** The entries of a list with the one at `i` cut out. */
  lemma RemovedAt(s: seq<Entry>, i: nat)
    requires i < |s|
    ensures var t := s[..i] + s[i + 1..];
            |t| == |s| - 1 && forall k :: 0 <= k < |t| ==> t[k] == if k < i then s[k] else s[k + 1]
  {
  }

  /** Removing one entry keeps a list sorted, duplicate-free and z-consistent. */
  lemma RemovalKeeps(s: seq<Entry>, i: nat, zOf: int -> int)
    requires i < |s| && Sorted(s) && Unique(s) && ZConsistent(s, zOf)
    ensures var t := s[..i] + s[i + 1..];
            Sorted(t) && Unique(t) && ZConsistent(t, zOf) && Ids(t) == Ids(s) - {s[i].id}
  {
    RemovalKeepsOrder(s, i, zOf);
    RemovalIds(s, i);
  }

  lemma RemovalKeepsOrder(s: seq<Entry>, i: nat, zOf: int -> int)
    requires i < |s| && Sorted(s) && Unique(s) && ZConsistent(s, zOf)
    ensures var t := s[..i] + s[i + 1..];
            Sorted(t) && Unique(t) && ZConsistent(t, zOf)
  {
    var t := s[..i] + s[i + 1..];
    RemovedAt(s, i);
    forall j, k | 0 <= j < k < |t| ensures t[j].z <= t[k].z && t[j].id != t[k].id {
      var j', k' := if j < i then j else j + 1, if k < i then k else k + 1;
      assert t[j] == s[j'] && t[k] == s[k'];
    }
  }

  /** In a duplicate-free list, removing an entry removes exactly its owner. */
  lemma RemovalIds(s: seq<Entry>, i: nat)
    requires i < |s| && Unique(s)
    ensures Ids(s[..i] + s[i + 1..]) == Ids(s) - {s[i].id}
  {
    var t := s[..i] + s[i + 1..];
    RemovedAt(s, i);
    forall x | x in Ids(s) - {s[i].id} ensures x in Ids(t) {
      var k :| 0 <= k < |s| && s[k].id == x;
      if k < i { assert t[k].id == x; } else { assert t[k - 1].id == x; }
    }
    forall x | x in Ids(t) ensures x in Ids(s) - {s[i].id} {
      var k :| 0 <= k < |t| && t[k].id == x;
      var k' := if k < i then k else k + 1;
      assert s[k'].id == x;
    }
  }

  /**
   * If every owner always applies with the same z-index, the list stays
   * sorted, never holds two entries of one owner, and its owner set grows
   * by the applied id on an upsert and loses it on a removal.
   */
  lemma {:induction false} AppliedFixedZ(s: seq<Entry>, id: int, data: Option<Contribution>, zOf: int -> int)
    requires Sorted(s) && Unique(s) && ZConsistent(s, zOf)
    ensures var t := Applied(s, id, zOf(id), data);
            Sorted(t) && Unique(t) && ZConsistent(t, zOf)
            && Ids(t) == if data.Some? then Ids(s) + {id} else Ids(s) - {id}
  {
    var i := IndexOf(s, id);
    if data.None? {
      DeletedRemovesFirst(s, id);
      if i < |s| {
        RemovalKeeps(s, i, zOf);
      }
    } else if i < |s| {
      ReplacementKeeps(s, Entry(id, zOf(id), data.value), i, zOf);
    } else {
      InsertionKeeps(s, Entry(id, zOf(id), data.value), zOf);
    }
  }

  /** Replacing an owner's entry by one at the same z-index keeps the list invariants. */
  lemma ReplacementKeeps(s: seq<Entry>, e: Entry, i: nat, zOf: int -> int)
    requires Sorted(s) && Unique(s) && ZConsistent(s, zOf) && e.z == zOf(e.id)
    requires i < |s| && s[i].id == e.id && forall j :: 0 <= j < i ==> s[j].id != e.id
    ensures var t := Inserted(s, e);
            Sorted(t) && Unique(t) && ZConsistent(t, zOf) && Ids(t) == Ids(s) + {e.id}
  {
    InsertedReplacesInPlace(s, e, i);
    var t := s[i := e];
    forall x | x in Ids(s) ensures x in Ids(t) {
      var k :| 0 <= k < |s| && s[k].id == x;
      assert t[k].id == x;
    }
  }

  /** An entry of a list with `e` put in at `p`, other than `e` itself. */
  lemma InsertedAtIndex(s: seq<Entry>, e: Entry, p: nat, k: nat)
    requires p <= |s| && k <= |s| && k != p
    ensures (s[..p] + [e] + s[p..])[k] == if k < p then s[k] else s[k - 1]
  {
  }

  /** Inserting a new owner at its z-index keeps the list invariants. */
  lemma InsertionKeeps(s: seq<Entry>, e: Entry, zOf: int -> int)
    requires Sorted(s) && Unique(s) && ZConsistent(s, zOf) && e.z == zOf(e.id) && e.id !in Ids(s)
    ensures var t := Inserted(s, e);
            Sorted(t) && Unique(t) && ZConsistent(t, zOf) && Ids(t) == Ids(s) + {e.id}
  {
    InsertedAbsentSorted(s, e);
    InsertedAbsentAt(s, e);
    var p := InsertPos(s, e.z);
    InsertAtKeepsOrder(s, e, p, zOf);
    InsertAtIds(s, e, p);
  }

  lemma InsertAtKeepsOrder(s: seq<Entry>, e: Entry, p: nat, zOf: int -> int)
    requires p <= |s| && Unique(s) && ZConsistent(s, zOf) && e.z == zOf(e.id) && e.id !in Ids(s)
    ensures var t := s[..p] + [e] + s[p..];
            Unique(t) && ZConsistent(t, zOf)
  {
    var t := s[..p] + [e] + s[p..];
    assert |t| == |s| + 1 && t[p] == e;
    forall j, k | 0 <= j < k < |t| ensures t[j].id != t[k].id {
      if j != p {
        InsertedAtIndex(s, e, p, j);
      }
      if k != p {
        InsertedAtIndex(s, e, p, k);
      }
    }
    forall k | 0 <= k < |t| ensures t[k].z == zOf(t[k].id) {
      if k != p {
        InsertedAtIndex(s, e, p, k);
      }
    }
  }

  /** Splicing in a new entry adds exactly its owner. */
  lemma InsertAtIds(s: seq<Entry>, e: Entry, p: nat)
    requires p <= |s|
    ensures Ids(s[..p] + [e] + s[p..]) == Ids(s) + {e.id}
  {
    var t := s[..p] + [e] + s[p..];
    assert |t| == |s| + 1 && t[p] == e;
    forall x | x in Ids(s) + {e.id} ensures x in Ids(t) {
      if x != e.id {
        var k :| 0 <= k < |s| && s[k].id == x;
        var k' := if k < p then k else k + 1;
        InsertedAtIndex(s, e, p, k');
        assert t[k'].id == x;
      }
    }
    forall x | x in Ids(t) ensures x in Ids(s) + {e.id} {
      var k :| 0 <= k < |t| && t[k].id == x;
      if k != p {
        InsertedAtIndex(s, e, p, k);
        var k' := if k < p then k else k - 1;
        assert s[k'].id == x;
      }
    }
  }

  /** A sequence of `apply` calls, each with its owner's fixed z-index. */
  function ApplyAll(s: seq<Entry>, ops: seq<(int, Option<Contribution>)>, zOf: int -> int): seq<Entry>
    decreases |ops|
  {
    if ops == [] then s else ApplyAll(Applied(s, ops[0].0, zOf(ops[0].0), ops[0].1), ops[1..], zOf)
  }

  /** Over any history of fixed-z applies, starting empty, no owner is ever listed twice. */
  lemma {:induction false} ApplyAllFixedZ(s: seq<Entry>, ops: seq<(int, Option<Contribution>)>, zOf: int -> int)
    requires Sorted(s) && Unique(s) && ZConsistent(s, zOf)
    ensures var t := ApplyAll(s, ops, zOf);
            Sorted(t) && Unique(t) && ZConsistent(t, zOf)
    decreases |ops|
  {
    if ops != [] {
      AppliedFixedZ(s, ops[0].0, ops[0].1, zOf);
      ApplyAllFixedZ(Applied(s, ops[0].0, zOf(ops[0].0), ops[0].1), ops[1..], zOf);
    }
  }

  /**
   * Without the fixed-z discipline the list can hold an owner twice: owner 2
   * at z 7 re-applied at z 1 is inserted in front of owner 1's z-5 entry
   * before the walk reaches its old node.
   */
  lemma SmallerZDuplicates()
    ensures Inserted([Entry(1, 5, Pixel(0, 0)), Entry(2, 7, Pixel(0, 0))], Entry(2, 1, Pixel(0, 0)))
         == [Entry(2, 1, Pixel(0, 0)), Entry(1, 5, Pixel(0, 0)), Entry(2, 7, Pixel(0, 0))]
  {
  }

  // ---------------------------------------------------------------------
  // Resolution (determineOutput)

  /**
   * The local state of `determineOutput`: the glyph so far, the `outputFg` /
   * `outputBg` locals, and the four RGBA accumulators.
   */
  datatype Acc = Acc(code: int, outFg: int, outBg: int, fg: Rgba, bg: Rgba, top: Rgba, bot: Rgba)

  /** The `emptyRGBA` the source builds: `new RGBA()` has no argument, so every field is undefined. */
  const UndefinedRgba: Rgba := Rgba(NaN, NaN, NaN, NaN)
  /** The transparent black the empty accumulator is evidently meant to be. */
  const ZeroRgba: Rgba := Rgba(N(0), N(0), N(0), N(0))

  /**
   * Nothing folded in yet: no glyph, and the empty colour in every
   * accumulator.  `ResolveEmpty` shows that with either empty colour this
   * resolves to a blank.
   */
  function Start(empty: Rgba): (a: Acc)
    ensures a.code == SpaceCode && a.outFg == 0 && a.outBg == 0
    ensures a.fg == a.bg == a.top == a.bot == empty
  {
    Acc(SpaceCode, 0, 0, empty, empty, empty, empty)
  }

  /** `processPoint`. */
  function ProcessPoint(acc: Acc, code: int, fg: int, bg: int, blur: (Rgba, Rgba) -> Rgba): (r: Acc)
    ensures r.code == if code != SpaceCode && GetOpacity(fg) != 0 then code
                      else if GetOpacity(bg) > 99 then SpaceCode
                      else acc.code
  {
    var bgRgba := Layered(Decode(bg), blur(acc.top, acc.bot));
    var a1 := acc.(bg := bgRgba);
    var a2 :=
      if GetOpacity(bg) != 0 then
        var current := Decode(bg);
        var a' :=
          if GetOpacity(bg) > 99 then a1.(code := SpaceCode, outFg := 0, outBg := bg)
          else if code == SpaceCode then a1.(fg := Layered(current, a1.fg))
          else a1;
        a'.(top := Layered(current, a'.top), bot := Layered(current, a'.bot))
      else a1;
    if code != SpaceCode && GetOpacity(fg) != 0 then a2.(code := code, fg := Layered(Decode(fg), a2.bg))
    else a2
  }

  /** `processPixel`. */
  function ProcessPixel(acc: Acc, top: int, bottom: int, empty: Rgba): (r: Acc)
    ensures r.code == if GetOpacity(top) != 0 || GetOpacity(bottom) != 0 then SpaceCode else acc.code
  {
    var a1 := if GetOpacity(top) != 0 || GetOpacity(bottom) != 0
              then acc.(code := SpaceCode, fg := empty, bg := empty)
              else acc;
    a1.(top := Layered(Decode(top), a1.top), bot := Layered(Decode(bottom), a1.bot))
  }

  /** One step of the walk: dispatch on the contribution's variant. */
  function Step(acc: Acc, data: Contribution, blur: (Rgba, Rgba) -> Rgba, empty: Rgba): (r: Acc)
    ensures r.code == acc.code || r.code == SpaceCode || (data.Point? && r.code == data.code)
  {
    match data
    case Point(code, fg, bg) => ProcessPoint(acc, code, fg, bg, blur)
    case Pixel(top, bottom) => ProcessPixel(acc, top, bottom, empty)
  }

  /** The walk over the list, lowest z first. */
  function Fold(acc: Acc, s: seq<Entry>, blur: (Rgba, Rgba) -> Rgba, empty: Rgba): Acc
    decreases |s|
  {
    if s == [] then acc else Fold(Step(acc, s[0].data, blur, empty), s[1..], blur, empty)
  }

  /** The glyph the walk ends with is the one it started with, a space, or the code of a point in the list. */
  lemma {:induction false} FoldCode(acc: Acc, s: seq<Entry>, blur: (Rgba, Rgba) -> Rgba, empty: Rgba)
    ensures var r := Fold(acc, s, blur, empty);
            r.code == acc.code || r.code == SpaceCode || PointCode(s, r.code)
    decreases |s|
  {
    if s != [] {
      var next := Step(acc, s[0].data, blur, empty);
      FoldCode(next, s[1..], blur, empty);
      var r := Fold(next, s[1..], blur, empty);
      if PointCode(s[1..], r.code) {
        var k :| 0 <= k < |s[1..]| && s[1..][k].data.Point? && s[1..][k].data.code == r.code;
        assert s[k + 1] == s[1..][k];
      } else if r.code == next.code && next.code != acc.code && next.code != SpaceCode {
        assert s[0].data.Point? && s[0].data.code == r.code;
      }
    }
  }

  /**
   * The final step: with no glyph, the two half colours decide between a
   * plain background, an upper half block and a lower half block.
   */
  function Finish(acc: Acc): (r: Output)
    ensures var top, bottom := ToCode(acc.top), ToCode(acc.bot);
      && (acc.code != SpaceCode ==> r == Output(acc.code, ToCode(acc.fg), ToCode(acc.bg)))
      && (acc.code == SpaceCode && NumNe(top, bottom) && top.Truthy() ==>
            r == Output(UpperHalf, top, bottom))
      && (acc.code == SpaceCode && NumNe(top, bottom) && !top.Truthy() && bottom.Truthy() ==>
            r == Output(LowerHalf, bottom, top))
      && (acc.code == SpaceCode && NumNe(top, bottom) && !top.Truthy() && !bottom.Truthy() ==>
            r == Output(SpaceCode, N(acc.outFg), N(acc.outBg)))
      && (acc.code == SpaceCode && !NumNe(top, bottom) ==> r.code == SpaceCode && r.bg == top)
  {
    if acc.code == SpaceCode then
      var top, bottom := ToCode(acc.top), ToCode(acc.bot);
      if NumNe(top, bottom) then
        if top.Truthy() then Output(UpperHalf, top, bottom)
        else if bottom.Truthy() then Output(LowerHalf, bottom, top)
        else Output(SpaceCode, N(acc.outFg), N(acc.outBg))
      else Output(SpaceCode, N(acc.outFg), top)
    else Output(acc.code, ToCode(acc.fg), ToCode(acc.bg))
  }

  /** Some point of the list carries this glyph code. */
  predicate PointCode(s: seq<Entry>, code: int)
  {
    exists k :: 0 <= k < |s| && s[k].data.Point? && s[k].data.code == code
  }

  /** A resolved glyph is a space, a half block, or the code of a point of the list. */
  predicate Shown(code: int, s: seq<Entry>)
  {
    code == SpaceCode || code == UpperHalf || code == LowerHalf || PointCode(s, code)
  }

  /** `determineOutput` exactly as written, starting from the undefined `emptyRGBA`. */
  function ResolveAsWritten(s: seq<Entry>, blur: (Rgba, Rgba) -> Rgba): Output
  {
    Finish(Fold(Start(UndefinedRgba), s, blur, UndefinedRgba))
  }

  /** `determineOutput` with the empty accumulator as transparent black. */
  function Resolve(s: seq<Entry>, blur: (Rgba, Rgba) -> Rgba): Output
  {
    Finish(Fold(Start(ZeroRgba), s, blur, ZeroRgba))
  }

  /** Either start resolves a list to a glyph it can show: a space, a half block or the code of one of its points. */
  lemma ResolveShown(s: seq<Entry>, blur: (Rgba, Rgba) -> Rgba)
    ensures Shown(Resolve(s, blur).code, s)
    ensures Shown(ResolveAsWritten(s, blur).code, s)
  {
    FoldCode(Start(ZeroRgba), s, blur, ZeroRgba);
    FoldCode(Start(UndefinedRgba), s, blur, UndefinedRgba);
  }

  /** An empty list resolves to a blank: space, fg 0, bg 0 (either start). */
  lemma ResolveEmpty(blur: (Rgba, Rgba) -> Rgba)
    ensures Resolve([], blur) == Output(SpaceCode, N(0), N(0))
    ensures ResolveAsWritten([], blur) == Output(SpaceCode, N(0), N(0))
  {
    assert ToCode(ZeroRgba) == N(0);
  }

  /** Removing a cell's only contribution leaves it resolving to a blank. */
  lemma RemovalBlanks(id: int, z: int, z': int, data: Contribution, blur: (Rgba, Rgba) -> Rgba)
    ensures Resolve(Applied([Entry(id, z, data)], id, z', None), blur) == Output(SpaceCode, N(0), N(0))
  {
    assert Applied([Entry(id, z, data)], id, z', None) == [];
    ResolveEmpty(blur);
  }

  /** Colour codes of opacity 100 used in the worked examples below. */
  const Red: int := 100 * 0x100_0000 + 0xff0000
  const Green: int := 100 * 0x100_0000 + 0x00ff00
  const Blue: int := 100 * 0x100_0000 + 0x0000ff

  /** A code built from an RGB value and an opacity unpacks to them. */
  lemma Unpacks(h: int, o: int)
    requires 0 <= h < Two24 && 0 <= o <= 100
    ensures GetOpacity(o * Two24 + h) == o && GetHex(o * Two24 + h) == h
    ensures ToCode(Decode(o * Two24 + h)) == N(o * Two24 + h)
  {
    ShiftLeft24(o);
    PackUnpack(h, o);
    DecodeToCode(o * Two24 + h);
  }

  /**
   * Z-order: a space with a red fg at z 0 under an 'X' with a blue fg at
   * z 1, both without a background, resolve to 'X' in blue.
   */
  lemma ZOrderExample(blur: (Rgba, Rgba) -> Rgba)
    ensures var s := Inserted(Inserted([], Entry(1, 0, Point(32, Red, 0))), Entry(2, 1, Point(88, Blue, 0)));
            s == [Entry(1, 0, Point(32, Red, 0)), Entry(2, 1, Point(88, Blue, 0))]
            && Resolve(s, blur).code == 88 && Resolve(s, blur).fg == N(Blue)
  {
    var s := [Entry(1, 0, Point(32, Red, 0)), Entry(2, 1, Point(88, Blue, 0))];
    Unpacks(0x0000ff, 100);
    Unpacks(0, 0);
    var a1 := ProcessPoint(Start(ZeroRgba), 32, Red, 0, blur);
    var a2 := ProcessPoint(a1, 88, Blue, 0, blur);
    assert Fold(Start(ZeroRgba), s, blur, ZeroRgba) == Fold(a1, s[1..], blur, ZeroRgba);
    assert s[1..] == [s[1]] && s[1..][1..] == [];
    assert Fold(a1, s[1..], blur, ZeroRgba) == a2;
    assert a2.code == 88;
    assert a2.fg == Decode(Blue);
  }

  /** An opaque green top half over an opaque blue bottom half draws an upper half block. */
  lemma HalfBlockExample(blur: (Rgba, Rgba) -> Rgba)
    ensures Resolve([Entry(1, 0, Pixel(Green, Blue))], blur) == Output(UpperHalf, N(Green), N(Blue))
  {
    Unpacks(0x00ff00, 100);
    Unpacks(0x0000ff, 100);
    var acc := ProcessPixel(Start(ZeroRgba), Green, Blue, ZeroRgba);
    assert Fold(Start(ZeroRgba), [Entry(1, 0, Pixel(Green, Blue))], blur, ZeroRgba) == acc;
    assert acc.top == Decode(Green) && acc.bot == Decode(Blue);
  }

  // ---------------------------------------------------------------------
  // The empty accumulator (see README, Findings)

  /** Red at opacity 50. */
  const HalfRed: int := 50 * 0x100_0000 + 0xff0000

  /**
   * As written, a translucent pixel over an empty cell is lost: the blend
   * with undefined channels is NaN, NaN is neither equal to the other half
   * nor truthy, and the cell comes out blank.
   */
  lemma TranslucentPixelLostAsWritten(blur: (Rgba, Rgba) -> Rgba)
    ensures ResolveAsWritten([Entry(1, 0, Pixel(HalfRed, 0))], blur) == Output(SpaceCode, N(0), N(0))
  {
    Unpacks(0xff0000, 50);
    Unpacks(0, 0);
    var acc := ProcessPixel(Start(UndefinedRgba), HalfRed, 0, UndefinedRgba);
    assert Fold(Start(UndefinedRgba), [Entry(1, 0, Pixel(HalfRed, 0))], blur, UndefinedRgba) == acc;
    assert acc.top.b.NaN? && acc.bot.b.NaN?;
  }

  /** With a transparent-black start the same pixel draws a darkened upper half. */
  lemma TranslucentPixelDrawn(blur: (Rgba, Rgba) -> Rgba)
    ensures Resolve([Entry(1, 0, Pixel(HalfRed, 0))], blur)
         == Output(UpperHalf, N(100 * 0x100_0000 + 128 * 0x1_0000), N(0))
  {
    Unpacks(0xff0000, 50);
    Unpacks(0, 0);
    var acc := ProcessPixel(Start(ZeroRgba), HalfRed, 0, ZeroRgba);
    assert Fold(Start(ZeroRgba), [Entry(1, 0, Pixel(HalfRed, 0))], blur, ZeroRgba) == acc;
    assert Decode(HalfRed) == Rgba(N(255), N(0), N(0), N(50)) by {
      DivModUnique(0xff0000, 255, 0, Two16);
      DivModUnique(0xff0000, 0xff00, 0, Two8);
    }
    assert acc.top == Rgba(Fin(127.5), Fin(0.0), Fin(0.0), N(100));
    assert Round(127.5) == 128;
    assert ShiftLeft(100, Two24) == 100 * Two24 && ShiftLeft(128, Two16) == 128 * Two16;
    assert acc.bot == ZeroRgba;
    assert ToCode(ZeroRgba) == N(0);
  }

  /** Every field of an RGBA record is a number. */
  predicate Finite(x: Rgba)
  {
    x.r.Fin? && x.g.Fin? && x.b.Fin? && x.a.Fin?
  }

  predicate AllPixels(s: seq<Entry>)
  {
    forall i :: 0 <= i < |s| ==> s[i].data.Pixel?
  }

  lemma {:induction false} PixelFoldFinite(acc: Acc, s: seq<Entry>, blur: (Rgba, Rgba) -> Rgba)
    requires AllPixels(s) && Finite(acc.top) && Finite(acc.bot) && acc.code == SpaceCode
    ensures var r := Fold(acc, s, blur, ZeroRgba);
            Finite(r.top) && Finite(r.bot) && r.code == SpaceCode && r.outFg == acc.outFg
    decreases |s|
  {
    if s != [] {
      PixelFoldFinite(Step(acc, s[0].data, blur, ZeroRgba), s[1..], blur);
    }
  }

  /**
   * With a transparent-black start, a cell made only of pixel contributions
   * shows a half block exactly when its two halves resolve to different
   * colours, and otherwise a plain cell of the common colour.
   */
  lemma {:induction false} PixelsResolve(s: seq<Entry>, blur: (Rgba, Rgba) -> Rgba)
    requires AllPixels(s)
    ensures var acc := Fold(Start(ZeroRgba), s, blur, ZeroRgba);
            var top, bottom := ToCode(acc.top), ToCode(acc.bot);
            var r := Resolve(s, blur);
            top.Fin? && bottom.Fin?
            && (r.code == UpperHalf || r.code == LowerHalf <==> top != bottom)
            && (top == bottom ==> r == Output(SpaceCode, N(0), top))
  {
    PixelFoldFinite(Start(ZeroRgba), s, blur);
  }

  // ---------------------------------------------------------------------
  // The list as an object

  class Construction {
    /** The nodes after the sentinel `start`, in list order. */
    var entries: seq<Entry>
    /** `addedIDs`. */
    var addedIds: set<int>

    constructor ()
      ensures entries == [] && addedIds == {}
    {
      entries := [];
      addedIds := {};
    }

    /** `addSorted`. */
    method AddSorted(id: int, z: int, data: Contribution)
      modifies this
      ensures entries == Inserted(old(entries), Entry(id, z, data))
      ensures addedIds == if Replaces(old(entries), Entry(id, z, data)) then old(addedIds)
                          else old(addedIds) + {id}
    {
      var e := Entry(id, z, data);
      var s := entries;
      var k := 0;
      while k < |s|
        invariant k <= |s| && forall j :: 0 <= j < k ==> s[j].id != id && z >= s[j].z
      {
        if s[k].id == id {
          InsertedPrefix(s, k, e);
          ReplacesPrefix(s, k, e);
          entries := s[..k] + [e] + s[k + 1..];
          return;
        }
        if z < s[k].z {
          InsertedPrefix(s, k, e);
          ReplacesPrefix(s, k, e);
          entries := s[..k] + [e] + s[k..];
          addedIds := addedIds + {id};
          return;
        }
        k := k + 1;
      }
      InsertedPrefix(s, k, e);
      ReplacesPrefix(s, k, e);
      assert s[..k] == s;
      entries := s + [e];
      addedIds := addedIds + {id};
    }

    /** `deleteById`. */
    method DeleteById(id: int)
      modifies this
      ensures entries == Deleted(old(entries), id)
      ensures addedIds == if id in Ids(old(entries)) then old(addedIds) - {id} else old(addedIds)
    {
      var s := entries;
      var k := 0;
      while k < |s|
        invariant k <= |s| && forall j :: 0 <= j < k ==> s[j].id != id
      {
        if s[k].id == id {
          DeletedPrefix(s, k, id);
          assert s[k..][1..] == s[k + 1..];
          assert s[k].id in Ids(s);
          entries := s[..k] + s[k + 1..];
          addedIds := addedIds - {id};
          return;
        }
        k := k + 1;
      }
      DeletedPrefix(s, k, id);
      assert s[..k] == s;
    }

    /** `apply`: a contribution upserts the owner's entry, `null` removes it. */
    method Apply(id: int, z: int, data: Option<Contribution>)
      modifies this
      ensures entries == Applied(old(entries), id, z, data)
      ensures data.Some? ==>
                addedIds == if Replaces(old(entries), Entry(id, z, data.value)) then old(addedIds)
                            else old(addedIds) + {id}
      ensures data.None? ==>
                addedIds == if id in Ids(old(entries)) then old(addedIds) - {id} else old(addedIds)
    {
      if data.Some? {
        AddSorted(id, z, data.value);
      } else {
        DeleteById(id);
      }
    }

    /**
     * `determineOutput`: walk the list (`forEach`) folding each contribution
     * into the accumulators, then pick the glyph.  It only reads the list.
     */
    method DetermineOutput(blur: (Rgba, Rgba) -> Rgba) returns (out: Output)
      ensures out == Resolve(entries, blur)
    {
      var acc := Start(ZeroRgba);
      var k := 0;
      while k < |entries|
        invariant 0 <= k <= |entries|
        invariant Fold(acc, entries[k..], blur, ZeroRgba) == Fold(Start(ZeroRgba), entries, blur, ZeroRgba)
      {
        assert entries[k..][1..] == entries[k + 1..];
        acc := Step(acc, entries[k].data, blur, ZeroRgba);
        k := k + 1;
      }
      out := Finish(acc);
    }
  }

  /**
   * Under the fixed-z discipline `addedIDs` stays equal to the set of owners
   * in the list: an upsert adds the id exactly when the walk does not end
   * on the owner's node, which is exactly when the owner is absent.
   */
  lemma {:induction false} AddedIdsTrack(s: seq<Entry>, added: set<int>, id: int, data: Option<Contribution>, zOf: int -> int)
    requires Sorted(s) && Unique(s) && ZConsistent(s, zOf) && added == Ids(s)
    ensures var added' :=
              if data.Some? then
                (if Replaces(s, Entry(id, zOf(id), data.value)) then added else added + {id})
              else (if id in Ids(s) then added - {id} else added);
            added' == Ids(Applied(s, id, zOf(id), data))
  {
    AppliedFixedZ(s, id, data, zOf);
    if data.Some? {
      var e := Entry(id, zOf(id), data.value);
      var i := IndexOf(s, id);
      if i < |s| {
        InsertedReplacesInPlace(s, e, i);
      } else {
        AbsentNotReplaced(s, e);
      }
    }
  }
}
