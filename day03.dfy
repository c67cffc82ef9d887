/** Rucksack reorganization (day 3): each line lists the items of a
    rucksack, one character each, half in each compartment; the parts sum
    the priorities of the item found in both compartments, and of the item
    shared by each group of three rucksacks. */
module Day03 {
  import opened Common

  // ---------------------------------------------------------------------------
  // Shared items

  /** An item of `a` that is also in `b`, if there is one. The source takes
      whichever element its hash set intersection yields first; this model
      takes the first such item of `a`, and its contract promises only
      membership. */
  function SharedItem(a: string, b: string): (r: Option<char>)
    ensures r.Some? <==> exists c :: c in a && c in b
    ensures r.Some? ==> r.value in a && r.value in b
  {
    if a == [] then None
    else if a[0] in b then Some(a[0])
    else
      var rest := SharedItem(a[1..], b);
      assert forall c :: c in a && c != a[0] ==> c in a[1..];
      rest
  }

  /** The first compartment: the first `len >> 1` items. */
  function FirstHalf(line: string): string
  {
    line[..|line| / 2]
  }

  function SecondHalf(line: string): string
  {
    line[|line| / 2..]
  }

  lemma HalvesMeaning(line: string)
    ensures FirstHalf(line) + SecondHalf(line) == line
    ensures |SecondHalf(line)| - |FirstHalf(line)| == |line| % 2
  {
  }

  /** `find_duplicate`: an item in both compartments; None where the
      source's `unwrap` panics, when the compartments share nothing. */
  function FindDuplicate(line: string): (r: Option<char>)
    ensures r.Some? <==> exists c :: c in FirstHalf(line) && c in SecondHalf(line)
    ensures r.Some? ==> r.value in FirstHalf(line) && r.value in SecondHalf(line)
  {
    SharedItem(FirstHalf(line), SecondHalf(line))
  }

  /** An item of `a` that is in `b` and in `c`, if there is one. */
  function SharedItem3(a: string, b: string, c: string): (r: Option<char>)
    ensures r.Some? <==> exists x :: x in a && x in b && x in c
    ensures r.Some? ==> r.value in a && r.value in b && r.value in c
  {
    if a == [] then None
    else if a[0] in b && a[0] in c then Some(a[0])
    else
      var rest := SharedItem3(a[1..], b, c);
      assert forall x :: x in a && x != a[0] ==> x in a[1..];
      rest
  }

  /** `find_shared_item`: an item in all three rucksacks; None where the
      source panics. */
  function FindSharedItem(line1: string, line2: string, line3: string): (r: Option<char>)
    ensures r.Some? <==> exists x :: x in line1 && x in line2 && x in line3
    ensures r.Some? ==> r.value in line1 && r.value in line2 && r.value in line3
  {
    SharedItem3(line1, line2, line3)
  }

  // ---------------------------------------------------------------------------
  // Priorities

  /** `char_prio`: `c as u8` keeps the low byte of the code point; a to z
      give 1 to 26, A to Z give 27 to 52, and any other byte is a panic
      (None). */
  function CharPrio(c: char): (r: Option<int>)
    ensures r.Some? ==> 1 <= r.value <= 52
  {
    var code := (c as int) % 256;
    if 'a' as int <= code <= 'z' as int then Some(1 + code - 'a' as int)
    else if 'A' as int <= code <= 'Z' as int then Some(27 + code - 'A' as int)
    else None
  }

  /** The letter of a priority. */
  function PrioChar(p: int): (c: char)
    requires 1 <= p <= 52
  {
    if p <= 26 then ('a' as int + p - 1) as char else ('A' as int + p - 27) as char
  }

  /** Priorities tell the letters apart: each of 1..52 belongs to one
      letter, and every ASCII letter has one. */
  lemma CharPrioOfPrioChar(p: int)
    requires 1 <= p <= 52
    ensures CharPrio(PrioChar(p)) == Some(p)
  {
  }

  lemma CharPrioOfLetter(c: char)
    requires 'a' <= c <= 'z' || 'A' <= c <= 'Z'
    ensures CharPrio(c).Some? && PrioChar(CharPrio(c).value) == c
  {
  }

  /** Because of the byte cast, a character beyond ASCII whose low byte is
      a letter gets that letter's priority, and a character whose code is
      not a letter has none. */
  lemma CharPrioKeepsLowByte()
    ensures CharPrio('š') == Some(1)
    ensures CharPrio('!') == None
  {
  }

  // ---------------------------------------------------------------------------
  // The parts

  /** `part_1`: the sum of the priorities of each line's duplicate; None
      when a line has none or its priority is a panic. */
  function DuplicatesTotal(lines: seq<string>): (r: Option<int>)
    ensures r.Some? ==> |lines| <= r.value <= 52 * |lines|
    ensures r.Some? <==> forall k :: 0 <= k < |lines| ==> Prio(FindDuplicate(lines[k])).Some?
  {
    if lines == [] then Some(0)
    else
      var head, tail := Prio(FindDuplicate(lines[0])), DuplicatesTotal(lines[1..]);
      assert forall k :: 1 <= k < |lines| ==> lines[k] == lines[1..][k - 1];
      if head.Some? && tail.Some? then Some(head.value + tail.value) else None
  }

  function Prio(item: Option<char>): (r: Option<int>)
    ensures r.Some? ==> 1 <= r.value <= 52
  {
    if item.Some? then CharPrio(item.value) else None
  }

  /** The priorities of the groups of three lines, from the front; None
      when the lines do not split into groups of three, or a group has no
      shared item with a priority. */
  function GroupsTotal(lines: seq<string>): (r: Option<int>)
    ensures r.Some? ==> |lines| % 3 == 0
    ensures r.Some? ==> |lines| / 3 <= r.value <= 52 * (|lines| / 3)
  {
    if lines == [] then Some(0)
    else if |lines| < 3 then None
    else
      var head, tail := Prio(FindSharedItem(lines[0], lines[1], lines[2])), GroupsTotal(lines[3..]);
      if head.Some? && tail.Some? then Some(head.value + tail.value) else None
  }

  function Plus(n: int, o: Option<int>): Option<int>
  {
    if o.Some? then Some(n + o.value) else None
  }

  /** `part_2`: walks the lines three at a time, adding the priority of each
      group's shared item; None where the source panics (a group cut short
      by the end of the input, no shared item, or a bad priority). */
  method GroupPriorities(lines: seq<string>) returns (r: Option<int>)
    ensures r == GroupsTotal(lines)
  {
    var i := 0;
    var sum := 0;
    while i < |lines|
      invariant i <= |lines|
      invariant GroupsTotal(lines) == Plus(sum, GroupsTotal(lines[i..]))
      decreases |lines| - i
    {
      if i + 2 >= |lines| {
        return None;
      }
      var sharedItem := FindSharedItem(lines[i], lines[i + 1], lines[i + 2]);
      assert lines[i..][3..] == lines[i + 3..];
      var prio := Prio(sharedItem);
      if prio.None? {
        return None;
      }
      sum := sum + prio.value;
      i := i + 3;
    }
    assert lines[i..] == [];
    return Some(sum);
  }
}
