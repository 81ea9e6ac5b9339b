/** The bead-list editor state of the bracelet configurator: the bead count,
    the list of beads, the counter that hands out bead ids and the selected
    bead, with the operations the configurator performs on them (the
    count-sync effect, point updates, add/remove, arrow-key navigation,
    duplicate and reset), and the bead-diameter rule of the preview. */
module BraceletConfigurator {

  datatype Option<T> = None | Some(value: T)

  datatype Shape = Round | Square | Diamond

  datatype Bead = Bead(id: int, color: string, shape: Shape)

  /** `Partial<Bead>`: the fields a call to `updateBead` overwrites. */
  datatype Patch = Patch(id: Option<int>, color: Option<string>, shape: Option<Shape>)

  const White: string := "#FFFFFF"

  /** Floor of the bead count used by `removeBead` and by the diameter rule. */
  const MinCount: int := 3

  /** The bead every new slot starts with. */
  function DefaultBead(id: int): Bead
  {
    Bead(id, White, Round)
  }

  // ---------------------------------------------------------------------------
  // Identity of beads

  /** No two beads share an id. */
  ghost predicate IdsDistinct(beads: seq<Bead>)
  {
    forall i, j :: 0 <= i < j < |beads| ==> beads[i].id != beads[j].id
  }

  /** Every id lies in [lo, hi]. */
  ghost predicate IdsWithin(beads: seq<Bead>, lo: int, hi: int)
  {
    forall i :: 0 <= i < |beads| ==> lo <= beads[i].id <= hi
  }

  /** The beads of a fresh configurator: `initial` white round beads with
      ids 1 .. initial. */
  function InitialBeads(initial: nat): (r: seq<Bead>)
    ensures |r| == initial
    ensures IdsDistinct(r) && IdsWithin(r, 1, initial)
    ensures forall i :: 0 <= i < |r| ==> r[i].color == White && r[i].shape == Round
  {
    seq(initial, i => DefaultBead(i + 1))
  }

  /** The `k` default beads the sync effect appends when the id counter
      stands at `last`: they get ids last + 1, ..., last + k, in order. */
  function FreshBeads(last: int, k: nat): (r: seq<Bead>)
    ensures |r| == k
    ensures forall i :: 0 <= i < k ==> r[i] == DefaultBead(last + 1 + i)
  {
    seq(k, i => DefaultBead(last + 1 + i))
  }

  /** One more fresh bead is the old fresh beads plus the next id. */
  lemma FreshBeadsSnoc(last: int, k: nat)
    ensures FreshBeads(last, k + 1) == FreshBeads(last, k) + [DefaultBead(last + 1 + k)]
  {
  }

  // ---------------------------------------------------------------------------
  // Count sync

  /** The bead list after the count-sync effect: unchanged when it already
      has `count` beads, extended by default beads with fresh ids when it is
      shorter, cut down to its first `count` beads when it is longer. */
  function Resized(prev: seq<Bead>, count: nat, last: int): (r: seq<Bead>)
    ensures |r| == count
    ensures |prev| == count ==> r == prev
    ensures |prev| >= count ==> r == prev[..count]
    ensures |prev| <= count ==> r[..|prev|] == prev
    ensures forall i :: |prev| <= i < count ==>
              r[i].color == White && r[i].shape == Round && r[i].id == last + 1 + (i - |prev|)
  {
    if |prev| == count then prev
    else if |prev| < count then prev + FreshBeads(last, count - |prev|)
    else prev[..count]
  }

  /** The value of the id counter after the count-sync effect. */
  function ResizedLast(prev: seq<Bead>, count: nat, last: int): (r: int)
    ensures r >= last
    ensures r == last <==> |prev| >= count
    ensures |prev| < count ==> r == FreshBeads(last, count - |prev|)[count - |prev| - 1].id
  {
    if |prev| < count then last + (count - |prev|) else last
  }

  /** When the sync appended beads, the counter ends at the id of the last
      bead of the synced list. */
  lemma ResizedLastIsLastId(prev: seq<Bead>, count: nat, last: int)
    requires |prev| < count
    ensures ResizedLast(prev, count, last) == Resized(prev, count, last)[count - 1].id
  {
  }

  /** The selection clamp of the count-sync effect. */
  function ClampSelection(s: Option<int>, count: int): (r: Option<int>)
    ensures s.None? <==> r.None?
    ensures r == s <==> s.None? || s.value < count
    ensures s.Some? && s.value >= count ==> r.value == count - 1
    ensures r.Some? ==> r.value < count && r.value <= s.value
  {
    if s.Some? && s.value >= count then Some(count - 1) else s
  }

  /** Resizing keeps ids distinct and inside [1, counter]: the new ids are
      all above every old one. */
  lemma ResizedIds(prev: seq<Bead>, count: nat, last: int)
    requires IdsDistinct(prev) && IdsWithin(prev, 1, last) && last >= 0
    ensures IdsDistinct(Resized(prev, count, last))
    ensures IdsWithin(Resized(prev, count, last), 1, ResizedLast(prev, count, last))
  {
    var r := Resized(prev, count, last);
    if |prev| < count {
      forall i, j | 0 <= i < j < |r| ensures r[i].id != r[j].id {
        if j < |prev| {
          assert r[i] == r[..|prev|][i] == prev[i];
          assert r[j] == r[..|prev|][j] == prev[j];
        } else if i < |prev| {
          assert r[i] == r[..|prev|][i] == prev[i];
        }
      }
      forall i | 0 <= i < |r| ensures 1 <= r[i].id <= ResizedLast(prev, count, last) {
        if i < |prev| {
          assert r[i] == r[..|prev|][i] == prev[i];
        }
      }
    }
  }

  /** On a non-empty list the clamp turns any non-negative selection into a
      position of the list. */
  lemma ClampSelectionInRange(s: Option<int>, count: nat)
    requires s.Some? && s.value >= 0 && count > 0
    ensures 0 <= ClampSelection(s, count).value < count
  {
  }

  /** Clamping twice to the same count is clamping once. */
  lemma ClampSelectionIdempotent(s: Option<int>, count: int)
    ensures ClampSelection(ClampSelection(s, count), count) == ClampSelection(s, count)
  {
  }

  // ---------------------------------------------------------------------------
  // updateBead

  /** `{ ...b, ...partial }` */
  function Merge(b: Bead, p: Patch): (r: Bead)
    ensures p.id.None? ==> r.id == b.id
    ensures p.color.None? ==> r.color == b.color
    ensures p.shape.None? ==> r.shape == b.shape
    ensures p.id.Some? ==> r.id == p.id.value
    ensures p.color.Some? ==> r.color == p.color.value
    ensures p.shape.Some? ==> r.shape == p.shape.value
  {
    Bead(if p.id.Some? then p.id.value else b.id,
         if p.color.Some? then p.color.value else b.color,
         if p.shape.Some? then p.shape.value else b.shape)
  }

  /** `prev.map((b, i) => i === index ? { ...b, ...partial } : b)`: an index
      outside the list matches no position and leaves the list as it is. */
  function UpdateAt(beads: seq<Bead>, index: int, p: Patch): (r: seq<Bead>)
    ensures |r| == |beads|
    ensures forall i :: 0 <= i < |r| && i != index ==> r[i] == beads[i]
    ensures 0 <= index < |r| ==> r[index] == Merge(beads[index], p)
  {
    seq(|beads|, i requires 0 <= i < |beads| => if i == index then Merge(beads[i], p) else beads[i])
  }

  /** The patch of the Reset button. */
  const ResetPatch: Patch := Patch(None, Some(White), Some(Round))

  /** A patch without an id keeps every id where it was, so distinct ids stay
      distinct. */
  lemma UpdateAtKeepsIds(beads: seq<Bead>, index: int, p: Patch, lo: int, hi: int)
    requires p.id.None?
    ensures forall i :: 0 <= i < |beads| ==> UpdateAt(beads, index, p)[i].id == beads[i].id
    ensures IdsDistinct(beads) ==> IdsDistinct(UpdateAt(beads, index, p))
    ensures IdsWithin(beads, lo, hi) ==> IdsWithin(UpdateAt(beads, index, p), lo, hi)
  {
    var r := UpdateAt(beads, index, p);
    forall i | 0 <= i < |beads| ensures r[i].id == beads[i].id {
      if i == index {
        assert r[i] == Merge(beads[i], p);
      }
    }
  }

  /** Applying the same patch twice at the same position is applying it once. */
  lemma UpdateAtIdempotent(beads: seq<Bead>, index: int, p: Patch)
    ensures UpdateAt(UpdateAt(beads, index, p), index, p) == UpdateAt(beads, index, p)
  {
    var once := UpdateAt(beads, index, p);
    var twice := UpdateAt(once, index, p);
    forall i | 0 <= i < |beads| ensures twice[i] == once[i] {
      if i == index {
        assert Merge(Merge(beads[i], p), p) == Merge(beads[i], p);
      }
    }
  }

  /** After Reset the bead at the position is white and round and keeps its
      id; all other beads are untouched. */
  lemma ResetMakesDefault(beads: seq<Bead>, index: int)
    requires 0 <= index < |beads|
    ensures UpdateAt(beads, index, ResetPatch)[index] == DefaultBead(beads[index].id)
    ensures forall i :: 0 <= i < |beads| && i != index ==> UpdateAt(beads, index, ResetPatch)[i] == beads[i]
  {
  }

  // ---------------------------------------------------------------------------
  // addBead / removeBead

  /** `setCount((c) => Math.max(3, c - 1))` */
  function RemovedCount(c: int): (r: int)
    ensures r >= MinCount
    ensures c > MinCount ==> r == c - 1
    ensures c <= MinCount + 1 ==> r == MinCount
  {
    if c - 1 > MinCount then c - 1 else MinCount
  }

  /** `setCount((c) => c + 1)`: no upper cap, whatever the slider's maximum. */
  function AddedCount(c: int): (r: int)
    ensures r > c && r - 1 == c
  {
    c + 1
  }

  /** Adding after removing restores a count above the floor, and removing
      after adding restores any count that is at least the floor. */
  lemma AddRemoveInverse(c: int)
    ensures c > MinCount ==> AddedCount(RemovedCount(c)) == c
    ensures c >= MinCount ==> RemovedCount(AddedCount(c)) == c
  {
  }

  // ---------------------------------------------------------------------------
  // Keyboard navigation

  /** JavaScript's `%` on integers: the remainder truncates toward zero, so
      it has the sign of the dividend. */
  function JsRem(a: int, n: int): (r: int)
    requires n > 0
    ensures a >= 0 ==> 0 <= r < n
    ensures a < 0 ==> -n < r <= 0
    ensures (a - r) % n == 0
  {
    if a >= 0 then
      ModUnique(a - a % n, n, a / n, 0);
      a % n
    else
      ModUnique(a + (-a) % n, n, -((-a) / n), 0);
      -((-a) % n)
  }

  /** ArrowRight: `s === null ? 0 : (s + 1) % count` */
  function ArrowRight(s: Option<int>, count: int): (r: int)
    requires count > 0
    ensures s.None? ==> r == 0
    ensures (s.None? || s.value >= -1) ==> 0 <= r < count
  {
    match s
    case None => 0
    case Some(v) => JsRem(v + 1, count)
  }

  /** ArrowLeft: `s === null ? count - 1 : (s - 1 + count) % count` */
  function ArrowLeft(s: Option<int>, count: int): (r: int)
    requires count > 0
    ensures s.None? ==> r == count - 1
    ensures (s.None? || s.value >= 1 - count) ==> 0 <= r < count
  {
    match s
    case None => count - 1
    case Some(v) => JsRem(v - 1 + count, count)
  }

  /** The remainder is determined by any quotient-remainder split of the
      dividend whose remainder lies in [0, n). */
  lemma ModUnique(a: int, n: int, q: int, r: int)
    requires n > 0 && 0 <= r < n && a == q * n + r
    ensures a % n == r
  {
    var q', r' := a / n, a % n;
    var d := q - q';
    assert d * n == r' - r;
    if d >= 1 {
      MultipleAtLeast(d, n);
    } else if d <= -1 {
      assert (-d) * n == -(d * n);
      MultipleAtLeast(-d, n);
    }
  }

  /** A positive multiple of a positive number is at least that number. */
  lemma {:induction false} MultipleAtLeast(x: int, n: int)
    requires x >= 1 && n > 0
    ensures x * n >= n
    decreases x
  {
    if x > 1 {
      MultipleAtLeast(x - 1, n);
      assert x * n == (x - 1) * n + n;
    }
  }

  /** On a selection inside the list ArrowRight moves one bead on and wraps
      from the last bead to the first. */
  lemma ArrowRightStep(v: int, count: int)
    requires 0 <= v < count
    ensures ArrowRight(Some(v), count) == if v == count - 1 then 0 else v + 1
  {
    if v + 1 < count {
      ModUnique(v + 1, count, 0, v + 1);
    } else {
      ModUnique(v + 1, count, 1, 0);
    }
  }

  /** On a selection inside the list ArrowLeft moves one bead back and wraps
      from the first bead to the last. */
  lemma ArrowLeftStep(v: int, count: int)
    requires 0 <= v < count
    ensures ArrowLeft(Some(v), count) == if v == 0 then count - 1 else v - 1
  {
    if v == 0 {
      ModUnique(count - 1, count, 0, count - 1);
    } else {
      ModUnique(v - 1 + count, count, 1, v - 1);
    }
  }

  /** ArrowRight then ArrowLeft, or ArrowLeft then ArrowRight, returns to the
      bead one started from. */
  lemma ArrowsInverse(v: int, count: int)
    requires 0 <= v < count
    ensures ArrowLeft(Some(ArrowRight(Some(v), count)), count) == v
    ensures ArrowRight(Some(ArrowLeft(Some(v), count)), count) == v
  {
    ArrowRightStep(v, count);
    ArrowLeftStep(ArrowRight(Some(v), count), count);
    ArrowLeftStep(v, count);
    ArrowRightStep(ArrowLeft(Some(v), count), count);
  }

  // ---------------------------------------------------------------------------
  // Duplicate

  /** `next.splice(k + 1, 0, copy)`: a copy of bead `k`, with id `id`, placed
      right after it. */
  function Duplicated(beads: seq<Bead>, k: nat, id: int): (r: seq<Bead>)
    requires k < |beads|
    ensures |r| == |beads| + 1
    ensures r[..k + 1] == beads[..k + 1] && r[k + 2..] == beads[k + 1..]
    ensures r[k + 1] == Bead(id, beads[k].color, beads[k].shape)
  {
    beads[..k + 1] + [Bead(id, beads[k].color, beads[k].shape)] + beads[k + 1..]
  }

  /** Taking the copy back out of a duplicated list gives the list back: the
      other beads keep their relative order. */
  lemma DuplicatedRemoveCopy(beads: seq<Bead>, k: nat, id: int)
    requires k < |beads|
    ensures var r := Duplicated(beads, k, id); r[..k + 1] + r[k + 2..] == beads
  {
    var r := Duplicated(beads, k, id);
    assert beads[..k + 1] + beads[k + 1..] == beads;
  }

  /** A duplicate whose id is above every old id keeps ids distinct. */
  lemma DuplicatedIds(beads: seq<Bead>, k: nat, last: int)
    requires k < |beads|
    requires IdsDistinct(beads) && IdsWithin(beads, 1, last)
    ensures IdsDistinct(Duplicated(beads, k, last + 1))
    ensures IdsWithin(Duplicated(beads, k, last + 1), 1, last + 1)
  {
    var r := Duplicated(beads, k, last + 1);
    assert forall i :: 0 <= i <= k ==> r[i] == beads[i];
    assert forall i :: k + 2 <= i < |r| ==> r[i] == beads[i - 1];
    forall i, j | 0 <= i < j < |r| ensures r[i].id != r[j].id {
      if i == k + 1 || j == k + 1 {
      } else if j <= k {
      } else if i <= k {
        assert r[j] == beads[j - 1];
      } else {
        assert r[i] == beads[i - 1] && r[j] == beads[j - 1];
      }
    }
  }

  // ---------------------------------------------------------------------------
  // Bead diameter

  /** Side of the square preview, in px. */
  const Size: real := 560.0

  /** Ring radius: `Math.max(120, size / 2 - 120)`. */
  function RingRadius(): (r: real)
    ensures r == 160.0
  {
    if Size / 2.0 - 120.0 > 120.0 then Size / 2.0 - 120.0 else 120.0
  }

  /** `Math.max(3, count)`: the number of slots the circumference is shared
      among. */
  function Divisor(count: int): (d: int)
    ensures d >= MinCount && d >= count
    ensures count >= MinCount ==> d == count
  {
    if count > MinCount then count else MinCount
  }

  /** Circumference share per bead times the spacing factor 0.78. */
  function RawDiameter(pi: real, count: int): (raw: real)
    requires pi > 0.0
    ensures raw > 0.0
    ensures raw * Divisor(count) as real == 2.0 * pi * RingRadius() * 0.78
  {
    (2.0 * pi * RingRadius() / Divisor(count) as real) * 0.78
  }

  /** `Math.max(10, Math.min(56, raw))`; pi stands for `Math.PI`. */
  function BeadDiameter(pi: real, count: int): (d: real)
    requires pi > 0.0
    ensures 10.0 <= d <= 56.0
    ensures 10.0 <= RawDiameter(pi, count) <= 56.0 ==> d == RawDiameter(pi, count)
  {
    var raw := RawDiameter(pi, count);
    if raw > 56.0 then 56.0 else if raw < 10.0 then 10.0 else raw
  }

  /** More beads never make beads larger. */
  lemma BeadDiameterMonotone(pi: real, c1: int, c2: int)
    requires pi > 0.0 && c1 <= c2
    ensures BeadDiameter(pi, c2) <= BeadDiameter(pi, c1)
  {
    var d1, d2 := Divisor(c1) as real, Divisor(c2) as real;
    var k := 2.0 * pi * RingRadius() * 0.78;
    assert k > 0.0;
    assert 0.0 < d1 <= d2;
    DivideByLarger(k, d1, d2);
    assert RawDiameter(pi, c1) == k / d1;
    assert RawDiameter(pi, c2) == k / d2;
  }

  /** Sharing a positive length among more parts gives smaller parts. */
  lemma DivideByLarger(k: real, d1: real, d2: real)
    requires k > 0.0 && 0.0 < d1 <= d2
    ensures k / d2 <= k / d1
  {
    var x1, x2 := k / d1, k / d2;
    assert x1 * d1 == k && x2 * d2 == k;
    assert x1 * d2 >= x1 * d1 by {
      assert x1 * d2 - x1 * d1 == x1 * (d2 - d1);
      assert x1 > 0.0;
    }
  }

  /** With pi between 3.14 and 3.15, every count up to 13 gets the largest
      bead (56 px) and every count from 79 on gets the smallest (10 px). */
  lemma BeadDiameterClampRanges(pi: real, count: int)
    requires 3.14 <= pi <= 3.15
    ensures count <= 13 ==> BeadDiameter(pi, count) == 56.0
    ensures count >= 79 ==> BeadDiameter(pi, count) == 10.0
  {
    var k := 2.0 * pi * RingRadius() * 0.78;
    var d := Divisor(count) as real;
    assert RawDiameter(pi, count) == k / d;
    assert 783.0 <= k <= 787.0;
    if count <= 13 {
      DivideByLarger(k, d, 13.0);
      assert k / 13.0 > 56.0;
    } else if count >= 79 {
      DivideByLarger(k, 79.0, d);
      assert k / 79.0 < 10.0;
    }
  }

  // ---------------------------------------------------------------------------
  // The editor state

  /** The selection is null or a bead of the list. */
  ghost predicate SelectionOk(s: Option<int>, count: int)
  {
    s.None? || 0 <= s.value < count
  }

  /** The state the configurator keeps: `count`, `beads`, the id counter
      `idRef.current` (here `last`, the largest id handed out so far) and
      `selectedIndex`. */
  class Editor {
    var count: nat
    var beads: seq<Bead>
    var last: int
    var selected: Option<int>

    /** Ids are distinct and none is above the counter, so the next id
        handed out is fresh. Holds at all times. */
    ghost predicate IdsOk()
      reads this
    {
      last >= 0 && IdsDistinct(beads) && IdsWithin(beads, 1, last)
    }

    /** The invariant between handlers: the sync effect has run. */
    ghost predicate Valid()
      reads this
    {
      IdsOk() && count >= 1 && |beads| == count && SelectionOk(selected, count)
    }

    /** The initial state followed by the first run of the sync effect on
        mount, which leaves the beads alone and clamps the selection. With
        no beads the first render reads `beads[0]` and fails before the
        effect runs, so there is at least one. */
    constructor (initial: nat)
      requires initial >= 1
      ensures Valid()
      ensures count == initial && last == initial
      ensures beads == InitialBeads(initial)
      ensures selected == ClampSelection(Some(0), initial)
    {
      count := initial;
      last := initial;
      beads := InitialBeads(initial);
      selected := ClampSelection(Some(0), initial);
    }

    /** The count-sync effect: grow the list with fresh default beads or
        truncate it to `count`, then clamp the selection. */
    method SyncCount()
      requires IdsOk() && count >= 1 && (selected.None? || selected.value >= 0)
      modifies this
      ensures Valid()
      ensures count == old(count)
      ensures beads == Resized(old(beads), count, old(last))
      ensures last == ResizedLast(old(beads), count, old(last))
      ensures selected == ClampSelection(old(selected), count)
    {
      ghost var prev, last0 := beads, last;
      ResizedIds(beads, count, last);
      if |beads| == count {
      } else if |beads| < count {
        var next := beads;
        var i := |beads|;
        while i < count
          invariant count == old(count) && beads == prev && selected == old(selected)
          invariant |prev| <= i <= count
          invariant last == last0 + (i - |prev|)
          invariant next == prev + FreshBeads(last0, i - |prev|)
        {
          last := last + 1;
          FreshBeadsSnoc(last0, i - |prev|);
          next := next + [DefaultBead(last)];
          i := i + 1;
        }
        assert next == Resized(prev, count, last0);
        assert last == ResizedLast(prev, count, last0);
        beads := next;
      } else {
        beads := beads[..count];
      }
      selected := ClampSelection(selected, count);
    }

    /** A count change (slider, `+`/`-` buttons) followed by the sync effect. */
    method SetCount(n: nat)
      requires Valid() && n >= 1
      modifies this
      ensures Valid()
      ensures count == n
      ensures beads == Resized(old(beads), n, old(last))
      ensures last == ResizedLast(old(beads), n, old(last))
      ensures selected == ClampSelection(old(selected), n)
    {
      count := n;
      SyncCount();
    }

    /** `addBead`: one more white round bead with a fresh id at the end; the
        selection does not move. */
    method AddBead()
      requires Valid()
      modifies this
      ensures Valid()
      ensures count == AddedCount(old(count))
      ensures beads == old(beads) + [DefaultBead(old(last) + 1)]
      ensures last == old(last) + 1
      ensures selected == old(selected)
    {
      SetCount(AddedCount(count));
      assert beads[..|old(beads)|] == old(beads);
      assert beads == beads[..|old(beads)|] + [beads[|old(beads)|]];
    }

    /** `removeBead`: the count goes down by one but not below 3; above the
        floor the last bead is dropped, and the selection follows it if it
        was the last bead. */
    method RemoveBead()
      requires Valid()
      modifies this
      ensures Valid()
      ensures count == RemovedCount(old(count))
      ensures old(count) > MinCount ==> beads == old(beads)[..old(count) - 1] && last == old(last)
      ensures beads == Resized(old(beads), count, old(last))
      ensures last == ResizedLast(old(beads), count, old(last))
      ensures selected == ClampSelection(old(selected), count)
    {
      var n := RemovedCount(count);
      SetCount(n);
    }

    /** Click, Enter or Space on bead `i`. */
    method Select(i: int)
      requires Valid() && 0 <= i < count
      modifies this`selected
      ensures Valid()
      ensures selected == Some(i)
    {
      selected := Some(i);
    }

    /** ArrowRight on a bead (there is one, so the list is not empty). */
    method MoveRight()
      requires Valid() && count > 0
      modifies this`selected
      ensures Valid()
      ensures selected == Some(ArrowRight(old(selected), count))
    {
      selected := Some(ArrowRight(selected, count));
    }

    /** ArrowLeft on a bead (there is one, so the list is not empty). */
    method MoveLeft()
      requires Valid() && count > 0
      modifies this`selected
      ensures Valid()
      ensures selected == Some(ArrowLeft(old(selected), count))
    {
      selected := Some(ArrowLeft(selected, count));
    }

    /** `updateBead(index, partial)` as the component calls it: with a colour
        and/or a shape, never an id. */
    method UpdateBead(index: int, p: Patch)
      requires Valid() && p.id.None?
      modifies this`beads
      ensures Valid()
      ensures beads == UpdateAt(old(beads), index, p)
    {
      UpdateAtKeepsIds(beads, index, p, 1, last);
      beads := UpdateAt(beads, index, p);
    }

    /** The Reset button: `updateBead(selectedIndex ?? 0, { color: "#FFFFFF",
        shape: "round" })`. */
    method Reset()
      requires Valid()
      modifies this`beads
      ensures Valid()
      ensures beads == UpdateAt(old(beads), if selected.Some? then selected.value else 0, ResetPatch)
    {
      UpdateBead(if selected.Some? then selected.value else 0, ResetPatch);
    }

    /** The Duplicate button, shown only while a bead is selected: a copy of
        the selected bead with a fresh id goes right after it, the count
        grows with it, and the sync effect that follows changes nothing. */
    method Duplicate()
      requires Valid() && selected.Some? && 0 <= selected.value < count
      modifies this
      ensures Valid()
      ensures last == old(last) + 1
      ensures beads == Duplicated(old(beads), old(selected).value, last)
      ensures count == old(count) + 1
      ensures selected == old(selected)
    {
      var k := selected.value;
      DuplicatedIds(beads, k, last);
      last := last + 1;
      beads := Duplicated(beads, k, last);
      count := count + 1;
      SyncCount();
    }
  }
}
