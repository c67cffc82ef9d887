/** Grove positioning (day 20): the encrypted file keeps its numbers in
    `items` and mixes a separate array `positions`, where slot `p` holds the
    index of the item now at position `p` of the circular list. */
module Day20 {
  import opened Common

  /** The identity arrangement 0, 1, ..., n - 1. */
  function Range(n: nat): (r: seq<nat>)
    ensures |r| == n && forall i :: 0 <= i < n ==> r[i] == i
  {
    seq(n, i => i)
  }

  /** `s` is an arrangement of the indices 0..n-1, each exactly once. */
  predicate IsArrangement(s: seq<nat>, n: nat)
  {
    multiset(s) == multiset(Range(n))
  }

  lemma ArrangementBounds(s: seq<nat>, n: nat)
    requires IsArrangement(s, n)
    ensures |s| == n
    ensures forall i :: 0 <= i < |s| ==> s[i] < n
    ensures forall id :: 0 <= id < n ==> id in s
  {
    assert |multiset(s)| == |s|;
    forall i | 0 <= i < |s|
      ensures s[i] < n
    {
      assert s[i] in multiset(s);
      assert s[i] in Range(n);
    }
    forall id | 0 <= id < n
      ensures id in s
    {
      assert Range(n)[id] == id;
      assert id in multiset(Range(n));
    }
  }

  /** `move_right` on a sequence: slots start+1..end move one step towards
      the front and `id` lands in slot `end`. */
  function ShiftedRight(s: seq<nat>, id: nat, start: nat, end: nat): (r: seq<nat>)
    requires start <= end < |s|
    ensures |r| == |s|
  {
    seq(|s|, k requires 0 <= k < |s| => if start <= k < end then s[k + 1] else if k == end then id else s[k])
  }

  /** `move_left` on a sequence: slots end..start-1 move one step towards the
      back and `id` lands in slot `end`. */
  function ShiftedLeft(s: seq<nat>, id: nat, start: nat, end: nat): (r: seq<nat>)
    requires end <= start < |s|
    ensures |r| == |s|
  {
    seq(|s|, k requires 0 <= k < |s| => if end < k <= start then s[k - 1] else if k == end then id else s[k])
  }

  /** Moving the entry of slot `start` to slot `end` keeps the other entries
      in order: the result is a rearrangement of `s`. */
  lemma ShiftedRightShape(s: seq<nat>, start: nat, end: nat)
    requires start <= end < |s|
    ensures ShiftedRight(s, s[start], start, end) == s[..start] + s[start + 1..end + 1] + [s[start]] + s[end + 1..]
    ensures multiset(ShiftedRight(s, s[start], start, end)) == multiset(s)
  {
    var r := ShiftedRight(s, s[start], start, end);
    var t := s[..start] + s[start + 1..end + 1] + [s[start]] + s[end + 1..];
    assert |t| == |r|;
    forall k | 0 <= k < |r|
      ensures r[k] == t[k]
    {
      if k < start {
      } else if k < end {
        assert t[k] == s[start + 1..end + 1][k - start];
      } else if k == end {
      } else {
        assert t[k] == s[end + 1..][k - end - 1];
      }
    }
    assert s == s[..start] + [s[start]] + s[start + 1..end + 1] + s[end + 1..];
  }

  lemma ShiftedLeftShape(s: seq<nat>, start: nat, end: nat)
    requires end <= start < |s|
    ensures ShiftedLeft(s, s[start], start, end) == s[..end] + [s[start]] + s[end..start] + s[start + 1..]
    ensures multiset(ShiftedLeft(s, s[start], start, end)) == multiset(s)
  {
    var r := ShiftedLeft(s, s[start], start, end);
    var t := s[..end] + [s[start]] + s[end..start] + s[start + 1..];
    assert |t| == |r|;
    forall k | 0 <= k < |r|
      ensures r[k] == t[k]
    {
      if k < end {
      } else if k == end {
      } else if k <= start {
        assert t[k] == s[end..start][k - end - 1];
      } else {
        assert t[k] == s[start + 1..][k - start - 1];
      }
    }
    assert s == s[..end] + s[end..start] + [s[start]] + s[start + 1..];
  }

  /** `end_position`: the slot an item moves to, computed with Rust's
      truncating remainder. With fewer than two items every path divides by
      `len - 1 == 0`, a panic (None). Otherwise the slot lies in 1..len-1 and
      differs from `start + item` by a multiple of `len - 1`: the list is
      circular and the moving item is not counted. */
  function EndPosition(start: nat, item: int, len: nat): (r: Option<nat>)
    requires start < len
    ensures r.Some? <==> len >= 2
    ensures r.Some? ==> 1 <= r.value <= len - 1
    ensures r.Some? ==> (r.value - (start + item)) % (len - 1) == 0
  {
    if len == 1 then None
    else
      var pos := start + item;
      var pos1 := if pos >= len then RustRem(pos, len - 1) else pos;
      var pos2 := if pos1 <= 0 then RustRem(pos1, len - 1) + (len - 1) else pos1;
      EndPositionFacts(pos, pos1, pos2, len - 1);
      Some(pos2)
  }

  lemma EndPositionFacts(pos: int, pos1: int, pos2: int, m: nat)
    requires m >= 1
    requires pos1 == if pos >= m + 1 then RustRem(pos, m) else pos
    requires pos2 == if pos1 <= 0 then RustRem(pos1, m) + m else pos1
    ensures 1 <= pos2 <= m
    ensures (pos2 - pos) % m == 0
  {
    var q1 := FirstReduction(pos, pos1, m);
    var q2 := SecondReduction(pos1, pos2, m);
    var q := -(q1 + q2);
    assert q * m == -(q1 * m) - q2 * m;
    MultipleMod(q, m);
  }

  /** A position past the end is brought back to at most `m`, by a multiple
      of `m`. */
  lemma FirstReduction(pos: int, pos1: int, m: nat) returns (q: int)
    requires m >= 1
    requires pos1 == if pos >= m + 1 then RustRem(pos, m) else pos
    ensures pos - pos1 == q * m && pos1 <= m
  {
    if pos >= m + 1 {
      q := RustDiv(pos, m);
    } else {
      q := 0;
    }
  }

  /** A position at or before slot 0 is brought into 1..m, by a multiple of
      `m`. */
  lemma SecondReduction(pos1: int, pos2: int, m: nat) returns (q: int)
    requires m >= 1 && pos1 <= m
    requires pos2 == if pos1 <= 0 then RustRem(pos1, m) + m else pos1
    ensures pos1 - pos2 == q * m && 1 <= pos2 <= m
  {
    if pos1 <= 0 {
      var d := RustDiv(pos1, m);
      assert d * m + RustRem(pos1, m) == pos1;
      q := d - 1;
      assert q * m == d * m - m;
    } else {
      q := 0;
    }
  }

  /** Index of the first slot holding `id`. */
  function SlotOf(s: seq<nat>, id: nat): (r: Option<nat>)
    ensures r.Some? ==> r.value < |s| && s[r.value] == id && id !in s[..r.value]
    ensures r.None? ==> id !in s
  {
    if s == [] then None
    else if s[0] == id then Some(0)
    else
      match SlotOf(s[1..], id)
      case None => None
      case Some(p) =>
        assert s[..p + 1] == [s[0]] + s[1..][..p];
        Some(p + 1)
  }

  /** `move_item` on the arrangement: None when the move panics. */
  function Moved(s: seq<nat>, id: nat, item: int): Option<seq<nat>>
  {
    if item == 0 then Some(s)
    else
      match SlotOf(s, id)
      case None => None
      case Some(start) =>
        match EndPosition(start, item, |s|)
        case None => None
        case Some(end) =>
          if end > start then Some(ShiftedRight(s, id, start, end))
          else if start > end then Some(ShiftedLeft(s, id, start, end))
          else Some(s)
  }

  /** A move keeps the arrangement an arrangement; it fails only when an item
      other than zero moves in a file of fewer than two items. */
  lemma MovedArrangement(s: seq<nat>, id: nat, item: int)
    requires IsArrangement(s, |s|) && id < |s|
    ensures Moved(s, id, item).Some? <==> item == 0 || |s| >= 2
    ensures Moved(s, id, item).Some? ==> IsArrangement(Moved(s, id, item).value, |s|)
  {
    ArrangementBounds(s, |s|);
    if item != 0 {
      var start := SlotOf(s, id).value;
      if |s| >= 2 {
        var end := EndPosition(start, item, |s|).value;
        if end > start {
          ShiftedRightShape(s, start, end);
        } else if start > end {
          ShiftedLeftShape(s, start, end);
        }
      }
    }
  }

  /** Moves of items 0..k-1 in order: what `move_all` does for k = len. */
  function MixedUpTo(s: seq<nat>, items: seq<int>, k: nat): Option<seq<nat>>
    requires k <= |items|
  {
    if k == 0 then Some(s)
    else
      match MixedUpTo(s, items, k - 1)
      case None => None
      case Some(t) => Moved(t, k - 1, items[k - 1])
  }

  lemma MixedNext(s: seq<nat>, items: seq<int>, k: nat, k': nat, t: seq<nat>)
    requires k < |items| && k' == k + 1
    requires MixedUpTo(s, items, k) == Some(t)
    ensures MixedUpTo(s, items, k') == Moved(t, k, items[k])
  {
  }

  /** A full mixing round leaves a valid arrangement. */
  lemma {:induction false} MixedArrangement(s: seq<nat>, items: seq<int>, k: nat)
    requires IsArrangement(s, |s|) && k <= |items| == |s|
    ensures MixedUpTo(s, items, k).Some? ==> IsArrangement(MixedUpTo(s, items, k).value, |s|)
    ensures MixedUpTo(s, items, k).Some? ==> |MixedUpTo(s, items, k).value| == |s|
  {
    if k > 0 {
      MixedArrangement(s, items, k - 1);
      var t := MixedUpTo(s, items, k - 1);
      if t.Some? {
        ArrangementBounds(t.value, |s|);
        MovedArrangement(t.value, k - 1, items[k - 1]);
        if Moved(t.value, k - 1, items[k - 1]).Some? {
          ArrangementBounds(Moved(t.value, k - 1, items[k - 1]).value, |s|);
        }
      }
    }
  }

  lemma AsPositionEuclidean(position: int, len: nat)
    requires len > 0
    ensures RustRem(position, len) + len >= 0
    ensures RustRem(RustRem(position, len) + len, len) == position % len
  {
    var inner := RustRem(position, len) + len;
    var r := RustRem(inner, len);
    var q1 := RustDiv(position, len);
    var q2 := RustDiv(inner, len);
    var k := q1 + q2 - 1;
    assert len * k == q1 * len + q2 * len - len;
    assert position == len * k + r;
    ModUnique(position, len, k, r);
  }

  class EncryptedFile {
    var items: array<int>
    var positions: array<nat>

    ghost predicate Valid()
      reads this, items, positions
    {
      && items.Length == positions.Length
      && IsArrangement(positions[..], items.Length)
      && forall p :: 0 <= p < positions.Length ==> positions[p] < items.Length
    }

    /** `new`: the numbers in file order, and the identity arrangement. */
    constructor (input: seq<int>)
      ensures items[..] == input && positions[..] == Range(|input|)
      ensures fresh(items) && fresh(positions)
      ensures Valid()
    {
      items := new int[|input|](i requires 0 <= i < |input| => input[i]);
      positions := new nat[|input|](i => i);
      new;
      assert positions[..] == Range(|input|);
    }

    /** `find_position`: the slot holding item `id`; a valid arrangement
        holds every index. */
    method FindPosition(id: nat) returns (r: Option<nat>)
      ensures r == SlotOf(positions[..], id)
      ensures Valid() && id < items.Length ==> r.Some?
    {
      var p := 0;
      while p < positions.Length
        invariant 0 <= p <= positions.Length
        invariant id !in positions[..p]
      {
        if positions[p] == id {
          SlotOfFirst(positions[..], id, p);
          return Some(p);
        }
        assert positions[..p + 1] == positions[..p] + [positions[p]];
        p := p + 1;
      }
      assert positions[..] == positions[..p];
      if Valid() && id < items.Length {
        ArrangementBounds(positions[..], items.Length);
      }
      return None;
    }

    /** `as_position`: `((position % len) + len) % len` with Rust's remainder
        is the Euclidean remainder. */
    function AsPosition(position: int): (r: nat)
      requires items.Length > 0
      reads this
      ensures r < items.Length && r == position % items.Length
    {
      var len := items.Length;
      AsPositionEuclidean(position, len);
      RustRem(RustRem(position, len) + len, len)
    }

    /** `move_right`. */
    method MoveRight(id: nat, start: nat, end: nat)
      requires start <= end < positions.Length
      modifies positions
      ensures positions[..] == ShiftedRight(old(positions[..]), id, start, end)
    {
      for i := start to end
        invariant forall k :: 0 <= k < positions.Length ==>
          positions[k] == if start <= k < i then old(positions[k + 1]) else old(positions[k])
      {
        positions[i] := positions[i + 1];
      }
      positions[end] := id;
    }

    /** `move_left`. */
    method MoveLeft(id: nat, start: nat, end: nat)
      requires end <= start < positions.Length
      modifies positions
      ensures positions[..] == ShiftedLeft(old(positions[..]), id, start, end)
    {
      var i := start;
      while i > end
        invariant end <= i <= start
        invariant forall k :: 0 <= k < positions.Length ==>
          positions[k] == if i < k <= start then old(positions[k - 1]) else old(positions[k])
      {
        i := i - 1;
        positions[i + 1] := positions[i];
      }
      positions[end] := id;
    }

    /** `move_item`: a zero stays put; any other item moves from its slot to
        `end_position`. The numbers never change and the arrangement stays
        valid; `ok` is false on the panic of a one-item file. */
    method MoveItem(id: nat) returns (ok: bool)
      requires Valid() && id < items.Length
      modifies positions
      ensures Moved(old(positions[..]), id, items[id]) == if ok then Some(positions[..]) else None
      ensures ok <==> items[id] == 0 || items.Length >= 2
      ensures ok ==> Valid()
      ensures items[id] == 0 ==> positions[..] == old(positions[..])
    {
      MovedArrangement(positions[..], id, items[id]);
      ghost var after := Moved(positions[..], id, items[id]);
      if after.Some? {
        ArrangementBounds(after.value, items.Length);
      }
      var item := items[id];
      if item == 0 {
        return true;
      }
      var start := FindPosition(id);
      var end := EndPosition(start.value, item, items.Length);
      if end.None? {
        return false;
      }
      if end.value > start.value {
        MoveRight(id, start.value, end.value);
      } else if start.value > end.value {
        MoveLeft(id, start.value, end.value);
      }
      return true;
    }

    /** One step of the loop of `move_all`: item `id` moves, or the round
        fails as a whole. */
    method MixStep(id: nat, ghost next: nat, ghost start: seq<nat>, ghost file: seq<int>) returns (ok: bool)
      requires Valid() && items[..] == file && id < |file| && next == id + 1
      requires MixedUpTo(start, file, id) == Some(positions[..])
      modifies positions
      ensures items[..] == file
      ensures ok ==> Valid() && MixedUpTo(start, file, next) == Some(positions[..])
      ensures !ok ==> MixedUpTo(start, file, |file|) == None
    {
      ghost var cur := positions[..];
      MixedNext(start, file, id, next, cur);
      assert file[id] == items[id];
      ok := MoveItem(id);
      if !ok {
        assert next == |file|;
      }
    }

    /** `move_all`: one mixing round, item by item in file order. */
    method MoveAll() returns (ok: bool)
      requires Valid()
      modifies positions
      ensures MixedUpTo(old(positions[..]), items[..], items.Length) == if ok then Some(positions[..]) else None
      ensures ok ==> Valid()
    {
      ghost var start := positions[..];
      ghost var file := items[..];
      for id := 0 to items.Length
        invariant Valid() && items[..] == file
        invariant MixedUpTo(start, file, id) == Some(positions[..])
      {
        ghost var next := id + 1;
        ok := MixStep(id, next, start, file);
        if !ok {
          return;
        }
      }
      ok := true;
    }

    /** `get_item`: the number at a position of the circular list, counting
        from slot 0; it is one of the file's numbers and repeats every `len`
        positions. */
    function GetItem(position: int): (r: int)
      requires Valid() && items.Length > 0
      reads this, items, positions
      ensures r == items[positions[position % items.Length]]
      ensures r in items[..]
    {
      items[positions[AsPosition(position)]]
    }

    lemma GetItemPeriodic(position: int)
      requires Valid() && items.Length > 0
      ensures GetItem(position + items.Length) == GetItem(position)
    {
      var n := items.Length;
      ModUnique(position + n, n, position / n + 1, position % n);
    }

    /** `apply_decryption_key`: every number is multiplied by the key; the
        arrangement is untouched. */
    method ApplyDecryptionKey(key: int)
      requires Valid()
      modifies items
      ensures forall i :: 0 <= i < items.Length ==> items[i] == old(items[i]) * key
      ensures Valid()
    {
      for i := 0 to items.Length
        invariant forall k :: 0 <= k < items.Length ==> items[k] == if k < i then old(items[k]) * key else old(items[k])
      {
        items[i] := items[i] * key;
      }
    }
  }

  lemma SlotOfFirst(s: seq<nat>, id: nat, p: nat)
    requires p < |s| && s[p] == id && id !in s[..p]
    ensures SlotOf(s, id) == Some(p)
  {
  }
}
