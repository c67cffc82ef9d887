/** The CPU of the handheld device (day 10): "noop" takes one cycle, "addx y"
    takes two cycles and then adds y to the register x. The device records
    its state at every cycle; the signal strength and the screen image are
    read off that history. */
module Day10 {
  import opened Common
  import opened Util

  datatype DeviceState = DeviceState(cycle: int, x: int)

  datatype Instr = Noop | Addx(y: int)

  const I64_MIN := -0x8000_0000_0000_0000
  const I64_MAX := 0x7FFF_FFFF_FFFF_FFFF

  /** The command of one line; an empty line, an unknown command, or an addx
      without an `i64` operand is a panic (None). */
  function ParseInstr(line: string): (r: Option<Instr>)
    ensures r.Some? && r.value.Addx? ==> I64_MIN <= r.value.y <= I64_MAX
  {
    var tokens := Tokenize(line);
    if |tokens| == 0 then None
    else if tokens[0] == "noop" then Some(Noop)
    else if tokens[0] == "addx" then
      if |tokens| < 2 then None
      else match ParseInt(tokens[1])
        case Some(y) => if I64_MIN <= y <= I64_MAX then Some(Addx(y)) else None
        case None => None
    else None
  }

  function ShowInstr(i: Instr): string
  {
    match i
    case Noop => "noop"
    case Addx(y) => Unwords(["addx", ShowInt(y)])
  }

  /** Writing a command and reading it back gives the command. */
  lemma ParseShowInstr(i: Instr)
    requires i.Addx? ==> I64_MIN <= i.y <= I64_MAX
    ensures ParseInstr(ShowInstr(i)) == Some(i)
  {
    match i
    case Noop =>
      assert NoWhitespace("noop");
      TokenizeUnwords(["noop"]);
    case Addx(y) =>
      var s := ShowInt(y);
      assert NoWhitespace(s) && s != [] by {
        if y < 0 {
          assert s == "-" + ShowNat(-y);
          forall k | 1 <= k < |s| ensures !IsWhitespace(s[k]) { assert IsDigit(ShowNat(-y)[k - 1]); }
        } else {
          forall k | 0 <= k < |s| ensures !IsWhitespace(s[k]) { assert IsDigit(ShowNat(y)[k]); }
        }
      }
      assert NoWhitespace("addx");
      TokenizeUnwords(["addx", s]);
      ParseShowInt(y);
  }

  /** The states recorded while running `instrs` from `s`, and the state
      after them. */
  function Run(s: DeviceState, instrs: seq<Instr>): (seq<DeviceState>, DeviceState)
    decreases |instrs|
  {
    if instrs == [] then ([], s)
    else
      match instrs[0]
      case Noop =>
        var rest := Run(DeviceState(s.cycle + 1, s.x), instrs[1..]);
        ([s] + rest.0, rest.1)
      case Addx(y) =>
        var rest := Run(DeviceState(s.cycle + 2, s.x + y), instrs[1..]);
        ([s, DeviceState(s.cycle + 1, s.x)] + rest.0, rest.1)
  }

  function Cycles(instrs: seq<Instr>): nat
  {
    if instrs == [] then 0 else (if instrs[0].Noop? then 1 else 2) + Cycles(instrs[1..])
  }

  /** The sum of the operands of the instructions that have completed within
      the first `t` cycles. */
  function Added(instrs: seq<Instr>, t: int): int
    decreases |instrs|
  {
    if instrs == [] then 0
    else
      var len := if instrs[0].Noop? then 1 else 2;
      if t < len then 0
      else (if instrs[0].Addx? then instrs[0].y else 0) + Added(instrs[1..], t - len)
  }

  /** One state per cycle, numbered consecutively, and during each cycle x
      holds the start value plus the operands of every addx already completed;
      the register changes only when an addx completes. */
  lemma {:induction false} RunFacts(s: DeviceState, instrs: seq<Instr>)
    ensures var (h, f) := Run(s, instrs);
      && |h| == Cycles(instrs)
      && (forall i :: 0 <= i < |h| ==> h[i].cycle == s.cycle + i && h[i].x == s.x + Added(instrs, i))
      && f.cycle == s.cycle + |h| && f.x == s.x + Added(instrs, |h|)
    decreases |instrs|
  {
    if instrs != [] {
      match instrs[0]
      case Noop =>
        RunFacts(DeviceState(s.cycle + 1, s.x), instrs[1..]);
      case Addx(y) =>
        RunFacts(DeviceState(s.cycle + 2, s.x + y), instrs[1..]);
    }
  }

  /** All lines as commands, or None if any of them does not parse. */
  function ParseAll(lines: seq<string>): (r: Option<seq<Instr>>)
    ensures r.Some? <==> forall k :: 0 <= k < |lines| ==> ParseInstr(lines[k]).Some?
    ensures r.Some? ==> |r.value| == |lines| && forall k :: 0 <= k < |lines| ==> r.value[k] == ParseInstr(lines[k]).value
  {
    if lines == [] then Some([])
    else
      var n := |lines|;
      var init := lines[..n - 1];
      assert forall k :: 0 <= k < n - 1 ==> init[k] == lines[k];
      var front := ParseAll(init);
      var last := ParseInstr(lines[n - 1]);
      if front.Some? && last.Some? then Some(front.value + [last.value])
      else None
  }

  lemma ParseAllSnoc(lines: seq<string>, k: nat, k': nat)
    requires k < |lines| && k' == k + 1
    requires ParseAll(lines[..k]).Some? && ParseInstr(lines[k]).Some?
    ensures ParseAll(lines[..k']) == Some(ParseAll(lines[..k]).value + [ParseInstr(lines[k]).value])
  {
    assert lines[..k'][..k] == lines[..k];
  }

  /** One line that does not parse makes the whole input fail. */
  lemma ParseAllFails(lines: seq<string>, k: nat)
    requires k < |lines| && ParseInstr(lines[k]).None?
    ensures ParseAll(lines).None?
  {
  }

  class Device {
    var state: DeviceState
    var history: seq<DeviceState>

    /** `Device::new`: cycle 1, x = 1, nothing recorded. */
    constructor()
      ensures state == DeviceState(1, 1) && history == []
    {
      state := DeviceState(1, 1);
      history := [];
    }

    /** `next_cycle`: record the current state and advance the cycle. */
    method NextCycle()
      modifies this
      ensures history == old(history) + [old(state)]
      ensures state == old(state).(cycle := old(state).cycle + 1)
    {
      history := history + [state];
      state := state.(cycle := state.cycle + 1);
    }

    /** `apply_command`: one or two cycles, then the addition. */
    method ApplyCommand(line: string) returns (ok: bool)
      modifies this
      ensures ok <==> ParseInstr(line).Some?
      ensures ok ==> var run := Run(old(state), [ParseInstr(line).value]);
        history == old(history) + run.0 && state == run.1
    {
      var instr := ParseInstr(line);
      if instr.None? {
        return false;
      }
      match instr.value {
        case Noop =>
          NextCycle();
        case Addx(y) =>
          NextCycle();
          NextCycle();
          state := state.(x := state.x + y);
      }
      return true;
    }

    /** The history and state after running `done` from `s0` with history `h0`. */
    ghost predicate Applied(s0: DeviceState, h0: seq<DeviceState>, done: seq<Instr>)
      reads this
    {
      history == h0 + Run(s0, done).0 && state == Run(s0, done).1
    }

    /** One line of the loop of `apply_all`. */
    method ApplyNext(line: string, ghost s0: DeviceState, ghost h0: seq<DeviceState>, ghost done: seq<Instr>)
      returns (ok: bool, ghost done': seq<Instr>)
      requires Applied(s0, h0, done)
      modifies this
      ensures ok <==> ParseInstr(line).Some?
      ensures ok ==> done' == done + [ParseInstr(line).value] && Applied(s0, h0, done')
    {
      done' := done;
      ghost var before := Run(s0, done);
      ok := ApplyCommand(line);
      if !ok {
        return;
      }
      ghost var instr := ParseInstr(line).value;
      ghost var step := Run(before.1, [instr]);
      RunAppend(s0, done, instr);
      assert history == (h0 + before.0) + step.0;
      assert (h0 + before.0) + step.0 == h0 + (before.0 + step.0);
      done' := done + [instr];
    }

    /** `apply_all`: every line in order, then one more cycle, so the last
        value of x is recorded too. */
    method ApplyAll(lines: seq<string>) returns (ok: bool)
      modifies this
      ensures ok <==> ParseAll(lines).Some?
      ensures ok ==> var run := Run(old(state), ParseAll(lines).value);
        history == old(history) + run.0 + [run.1] && state == run.1.(cycle := run.1.cycle + 1)
    {
      ghost var s0 := state;
      ghost var h0 := history;
      ghost var done: seq<Instr> := [];
      for k := 0 to |lines|
        invariant ParseAll(lines[..k]) == Some(done)
        invariant Applied(s0, h0, done)
      {
        ok, done := ApplyNext(lines[k], s0, h0, done);
        if !ok {
          ParseAllFails(lines, k);
          return false;
        }
        ghost var next := k + 1;
        ParseAllSnoc(lines, k, next);
      }
      assert lines[..|lines|] == lines;
      NextCycle();
      return true;
    }
  }

  /** Running one more instruction continues from where the others stopped. */
  lemma {:induction false} RunAppend(s: DeviceState, instrs: seq<Instr>, i: Instr)
    ensures var run := Run(s, instrs);
      Run(s, instrs + [i]) == (run.0 + Run(run.1, [i]).0, Run(run.1, [i]).1)
    decreases |instrs|
  {
    if instrs == [] {
      assert instrs + [i] == [i];
      assert [] + Run(s, [i]).0 == Run(s, [i]).0;
    } else {
      assert (instrs + [i])[1..] == instrs[1..] + [i];
      var next := match instrs[0]
        case Noop => DeviceState(s.cycle + 1, s.x)
        case Addx(y) => DeviceState(s.cycle + 2, s.x + y);
      var head := match instrs[0]
        case Noop => [s]
        case Addx(y) => [s, DeviceState(s.cycle + 1, s.x)];
      RunAppend(next, instrs[1..], i);
      var (h, f) := Run(next, instrs[1..]);
      assert Run(s, instrs) == (head + h, f);
      assert Run(s, instrs + [i]) == (head + (h + Run(f, [i]).0), Run(f, [i]).1);
      assert head + (h + Run(f, [i]).0) == head + h + Run(f, [i]).0;
    }
  }

  // ---------------------------------------------------------------------------
  // Reading the history

  /** Part one: the sum of cycle * x over the states whose cycle is
      20, 60, 100, ... (Rust's remainder: `(cycle + 20) % 40 == 0`). */
  function SignalSum(h: seq<DeviceState>): int
  {
    if h == [] then 0
    else
      var s := h[|h| - 1];
      SignalSum(h[..|h| - 1]) + (if RustRem(s.cycle + 20, 40) == 0 then s.cycle * s.x else 0)
  }

  /** The probes at cycles 20, 60, ..., 20 + 40 * (m - 1) of a history whose
      entry `i` is cycle `i + 1`. */
  function Probes(h: seq<DeviceState>, m: nat): int
    requires 40 * m <= |h| + 20
  {
    if m == 0 then 0 else Probes(h, m - 1) + (20 + 40 * (m - 1)) * h[19 + 40 * (m - 1)].x
  }

  /** For a history numbered from cycle 1, part one adds exactly the states
      of cycles 20, 60, 100, ... that the history reaches. */
  lemma {:induction false} SignalSumProbes(h: seq<DeviceState>)
    requires forall i :: 0 <= i < |h| ==> h[i].cycle == i + 1
    ensures 40 * ((|h| + 20) / 40) <= |h| + 20
    ensures SignalSum(h) == Probes(h, (|h| + 20) / 40)
  {
    var n := |h|;
    var m := (n + 20) / 40;
    ModUnique(n + 20, 40, m, (n + 20) % 40);
    if n > 0 {
      var p := h[..n - 1];
      SignalSumProbes(p);
      var m' := (n - 1 + 20) / 40;
      ModUnique(n - 1 + 20, 40, m', (n - 1 + 20) % 40);
      ProbesPrefix(p, h, m');
      var c := h[n - 1].cycle;
      assert RustRem(c + 20, 40) == (n + 20) % 40;
      if (n + 20) % 40 == 0 {
        assert m == m' + 1;
        assert 19 + 40 * (m - 1) == n - 1;
      } else {
        assert m == m';
      }
    }
  }

  lemma {:induction false} ProbesPrefix(p: seq<DeviceState>, h: seq<DeviceState>, m: nat)
    requires p <= h && 40 * m <= |p| + 20
    ensures Probes(p, m) == Probes(h, m)
  {
    if m > 0 {
      ProbesPrefix(p, h, m - 1);
    }
  }

  /** The pixel drawn for one state: lit when the sprite at x covers the
      column being drawn. */
  function Pixel(s: DeviceState): char
  {
    if Abs(RustRem(s.cycle - 1, 40) - s.x) <= 1 then '#' else '.'
  }

  /** Part two: the screen, a new line before every column 0. */
  function Render(h: seq<DeviceState>): string
  {
    if h == [] then []
    else
      var s := h[|h| - 1];
      Render(h[..|h| - 1]) + Chunk(s)
  }

  /** The screen as part two builds it, one pixel per recorded state. */
  method DrawScreen(h: seq<DeviceState>) returns (out: string)
    ensures out == Render(h)
  {
    out := "";
    for k := 0 to |h|
      invariant out == Render(h[..k])
    {
      var s := h[k];
      var pos := RustRem(s.cycle - 1, 40);
      if pos == 0 {
        out := out + "\n";
      }
      out := out + [if Abs(pos - s.x) <= 1 then '#' else '.'];
      assert h[..k + 1][..k] == h[..k];
    }
    assert h[..|h|] == h;
  }

  function WithoutNewlines(s: string): string
  {
    if s == [] then [] else WithoutNewlines(s[..|s| - 1]) + (if s[|s| - 1] == '\n' then [] else [s[|s| - 1]])
  }

  lemma {:induction false} WithoutNewlinesAppend(a: string, b: string)
    ensures WithoutNewlines(a + b) == WithoutNewlines(a) + WithoutNewlines(b)
    decreases |b|
  {
    if b == [] {
      assert a + b == a;
    } else {
      assert (a + b)[..|a + b| - 1] == a + b[..|b| - 1];
      WithoutNewlinesAppend(a, b[..|b| - 1]);
    }
  }

  /** One pixel per state, in order. */
  function Pixels(h: seq<DeviceState>): (r: string)
    ensures |r| == |h|
  {
    if h == [] then [] else Pixels(h[..|h| - 1]) + [Pixel(h[|h| - 1])]
  }

  lemma {:induction false} PixelsMeaning(h: seq<DeviceState>)
    ensures forall i :: 0 <= i < |h| ==> Pixels(h)[i] == Pixel(h[i])
  {
    if h != [] {
      PixelsMeaning(h[..|h| - 1]);
    }
  }

  /** Apart from the line breaks the screen holds exactly one pixel per state,
      in order. */
  lemma {:induction false} RenderPixels(h: seq<DeviceState>)
    ensures WithoutNewlines(Render(h)) == Pixels(h)
  {
    if h != [] {
      var s := h[|h| - 1];
      RenderPixels(h[..|h| - 1]);
      WithoutNewlinesAppend(Render(h[..|h| - 1]), Chunk(s));
      ChunkPixel(s);
    }
  }

  /** What one state adds to the screen. */
  function Chunk(s: DeviceState): string
  {
    (if RustRem(s.cycle - 1, 40) == 0 then "\n" else "") + [Pixel(s)]
  }

  lemma ChunkPixel(s: DeviceState)
    ensures WithoutNewlines(Chunk(s)) == [Pixel(s)]
  {
    var p := Pixel(s);
    assert p != '\n';
    assert WithoutNewlines([p]) == [p] by {
      assert [p][..0] == [];
    }
    if RustRem(s.cycle - 1, 40) == 0 {
      var c := "\n" + [p];
      assert c[..1] == "\n" && c[..1][..0] == [];
    }
  }
}
