/** Input helpers shared by the solvers: splitting lines into blank-line
    separated blocks, and splitting a line into whitespace separated tokens. */
module Util {

  /** The concatenation of a sequence of sequences. */
  function Flatten<T>(blocks: seq<seq<T>>): seq<T>
  {
    if blocks == [] then [] else blocks[0] + Flatten(blocks[1..])
  }

  lemma {:induction false} FlattenAppend<T>(a: seq<seq<T>>, b: seq<seq<T>>)
    ensures Flatten(a + b) == Flatten(a) + Flatten(b)
  {
    if a == [] {
      assert a + b == b;
    } else {
      assert (a + b)[1..] == a[1..] + b;
      FlattenAppend(a[1..], b);
    }
  }

  // ---------------------------------------------------------------------------
  // Blocks of lines

  /** The non-empty lines of `lines`, in order. */
  function NonEmptyLines(lines: seq<string>): seq<string>
  {
    if lines == [] then []
    else (if lines[0] == "" then [] else [lines[0]]) + NonEmptyLines(lines[1..])
  }

  /** The blocks that the rest of the input yields when `block` holds the lines
      gathered so far: an empty line closes a non-empty block, every other line
      joins the current block, and a non-empty block is closed at the end. */
  function Split(lines: seq<string>, block: seq<string>): seq<seq<string>>
  {
    if lines == [] then (if block == [] then [] else [block])
    else if lines[0] == "" then
      (if block == [] then [] else [block]) + Split(lines[1..], [])
    else Split(lines[1..], block + [lines[0]])
  }

  /** The blocks of the whole input. */
  function Blocks(lines: seq<string>): seq<seq<string>>
  {
    Split(lines, [])
  }

  /** `lines_to_blocks`: one pass over the lines, collecting the current block. */
  method LinesToBlocks(lines: seq<string>) returns (blocks: seq<seq<string>>)
    ensures blocks == Blocks(lines)
  {
    blocks := [];
    var block: seq<string> := [];
    var i := 0;
    while i < |lines|
      invariant 0 <= i <= |lines|
      invariant blocks + Split(lines[i..], block) == Split(lines, [])
    {
      var line := lines[i];
      assert lines[i..][1..] == lines[i + 1..];
      if line == "" {
        if block != [] {
          blocks := blocks + [block];
          block := [];
        }
      } else {
        block := block + [line];
      }
      i := i + 1;
    }
    if block != [] {
      blocks := blocks + [block];
    }
  }

  /** Split never yields an empty block. */
  lemma {:induction false} SplitNonEmpty(lines: seq<string>, block: seq<string>)
    ensures forall k :: 0 <= k < |Split(lines, block)| ==> Split(lines, block)[k] != []
    decreases |lines|
  {
    if lines == [] {
    } else if lines[0] == "" {
      SplitNonEmpty(lines[1..], []);
    } else {
      SplitNonEmpty(lines[1..], block + [lines[0]]);
    }
  }

  /** The blocks of Split hold exactly the pending lines followed by the
      non-empty input lines, in order. */
  lemma {:induction false} SplitFlatten(lines: seq<string>, block: seq<string>)
    ensures Flatten(Split(lines, block)) == block + NonEmptyLines(lines)
    decreases |lines|
  {
    if lines == [] {
      if block != [] {
        assert Flatten([block]) == block + Flatten<string>([]);
      }
    } else if lines[0] == "" {
      SplitFlatten(lines[1..], []);
      var head: seq<seq<string>> := if block == [] then [] else [block];
      FlattenAppend(head, Split(lines[1..], []));
      if block != [] {
        assert Flatten(head) == block + Flatten<string>([]);
      }
    } else {
      SplitFlatten(lines[1..], block + [lines[0]]);
    }
  }

  /** `lines_to_blocks` never yields an empty block, and concatenating its
      blocks gives exactly the non-empty input lines. */
  lemma BlocksContents(lines: seq<string>)
    ensures forall k :: 0 <= k < |Blocks(lines)| ==> Blocks(lines)[k] != []
    ensures Flatten(Blocks(lines)) == NonEmptyLines(lines)
  {
    SplitNonEmpty(lines, []);
    SplitFlatten(lines, []);
  }

  /** The lines of `blocks` with `gaps[k]` empty lines before block `k`. */
  function Join(blocks: seq<seq<string>>, gaps: seq<nat>): seq<string>
    requires |gaps| == |blocks|
  {
    if blocks == [] then [] else seq(gaps[0], _ => "") + blocks[0] + Join(blocks[1..], gaps[1..])
  }

  lemma {:induction false} SplitBlock(block: seq<string>, pending: seq<string>, rest: seq<string>)
    requires forall k :: 0 <= k < |block| ==> block[k] != ""
    ensures Split(block + rest, pending) == Split(rest, pending + block)
    decreases |block|
  {
    if block != [] {
      assert (block + rest)[1..] == block[1..] + rest;
      SplitBlock(block[1..], pending + [block[0]], rest);
      assert pending + [block[0]] + block[1..] == pending + block;
    } else {
      assert block + rest == rest;
      assert pending + block == pending;
    }
  }

  lemma {:induction false} SplitGap(n: nat, rest: seq<string>)
    ensures Split(seq(n, _ => "") + rest, []) == Split(rest, [])
  {
    if n > 0 {
      assert (seq(n, _ => "") + rest)[1..] == seq(n - 1, _ => "") + rest;
      SplitGap(n - 1, rest);
    } else {
      assert seq(n, _ => "") + rest == rest;
    }
  }

  /** A run of at least one empty line closes the pending block. */
  lemma CloseBlock(b: seq<string>, n: nat, after: seq<string>)
    requires b != [] && n >= 1
    ensures Split(seq(n, _ => "") + after, b) == [b] + Split(after, [])
  {
    var lines := seq(n, _ => "") + after;
    assert lines[0] == "";
    assert lines[1..] == seq(n - 1, _ => "") + after;
    SplitGap(n - 1, after);
  }

  /** The blocks after the first one: what follows the first block splits,
      with that block pending, into it and the rest. */
  lemma JoinTail(blocks: seq<seq<string>>, gaps: seq<nat>, tail: seq<string>, trailing: nat)
    requires |gaps| == |blocks| && blocks != []
    requires blocks[0] != []
    requires |blocks| > 1 ==> gaps[1] >= 1
    requires tail == seq(trailing, _ => "")
    ensures Split(Join(blocks[1..], gaps[1..]) + tail, blocks[0]) == [blocks[0]] + Split(Join(blocks[1..], gaps[1..]) + tail, [])
  {
    var b := blocks[0];
    var rest := Join(blocks[1..], gaps[1..]) + tail;
    if |blocks| > 1 {
      var g := gaps[1];
      var after := blocks[1] + Join(blocks[2..], gaps[2..]) + tail;
      assert rest == seq(g, _ => "") + after;
      CloseBlock(b, g, after);
      SplitGap(g, after);
    } else {
      assert rest == tail;
      if trailing == 0 {
        assert rest == [];
      } else {
        assert rest == seq(trailing, _ => "") + [];
        CloseBlock(b, trailing, []);
        SplitGap(trailing, []);
      }
    }
  }

  /** Blocks are split at every run of one or more empty lines, and leading
      or trailing empty lines make no block: any arrangement of non-empty
      blocks of non-empty lines with gaps of empty lines between them (at
      least one between two blocks), and any run of empty lines at the end,
      splits back into the same blocks. */
  lemma {:induction false} BlocksOfJoin(blocks: seq<seq<string>>, gaps: seq<nat>, trailing: nat)
    requires |gaps| == |blocks|
    requires forall k :: 0 <= k < |blocks| ==> blocks[k] != []
    requires forall k, j :: 0 <= k < |blocks| && 0 <= j < |blocks[k]| ==> blocks[k][j] != ""
    requires forall k :: 0 < k < |gaps| ==> gaps[k] >= 1
    ensures Blocks(Join(blocks, gaps) + seq(trailing, _ => "")) == blocks
    decreases |blocks|
  {
    var tail := seq(trailing, _ => "");
    if blocks == [] {
      assert Join(blocks, gaps) + tail == seq(trailing, _ => "") + [];
      SplitGap(trailing, []);
    } else {
      var b := blocks[0];
      var rest := Join(blocks[1..], gaps[1..]) + tail;
      assert Join(blocks, gaps) + tail == seq(gaps[0], _ => "") + (b + rest);
      SplitGap(gaps[0], b + rest);
      SplitBlock(b, [], rest);
      assert [] + b == b;
      JoinTail(blocks, gaps, tail, trailing);
      BlocksOfJoin(blocks[1..], gaps[1..], trailing);
    }
  }

  // ---------------------------------------------------------------------------
  // Tokens

  /** ASCII whitespace, as `split_whitespace` sees it on this input. */
  predicate IsWhitespace(c: char)
  {
    c == ' ' || c == '\t' || c == '\n' || c == '\r' || c == '\U{B}' || c == '\U{C}'
  }

  predicate NoWhitespace(s: string)
  {
    forall i :: 0 <= i < |s| ==> !IsWhitespace(s[i])
  }

  /** The characters of `s` that are not whitespace, in order. */
  function Visible(s: string): string
  {
    if s == [] then [] else (if IsWhitespace(s[0]) then [] else [s[0]]) + Visible(s[1..])
  }

  /** The tokens of `s` when `current` holds the characters of the token read
      so far: whitespace ends a non-empty token, other characters extend it. */
  function TokensFrom(s: string, current: string): (r: seq<string>)
    requires NoWhitespace(current)
    ensures forall k :: 0 <= k < |r| ==> r[k] != [] && NoWhitespace(r[k])
    ensures Flatten(r) == current + Visible(s)
  {
    if s == [] then
      HeadToken(current);
      assert current + Visible(s) == current;
      if current == [] then [] else [current]
    else if IsWhitespace(s[0]) then
      var head: seq<string> := if current == [] then [] else [current];
      var rest := TokensFrom(s[1..], []);
      HeadToken(current);
      JoinTokens(head, rest);
      assert Visible(s) == Visible(s[1..]);
      head + rest
    else
      ExtendToken(s, current);
      TokensFrom(s[1..], current + [s[0]])
  }

  /** The token read so far, as the list it ends up in. */
  lemma HeadToken(current: string)
    requires NoWhitespace(current)
    ensures var head: seq<string> := if current == [] then [] else [current];
      && Flatten(head) == current
      && forall k :: 0 <= k < |head| ==> head[k] != [] && NoWhitespace(head[k])
  {
    if current != [] {
      assert Flatten([current]) == current + Flatten<char>([]);
    }
  }

  lemma JoinTokens(head: seq<string>, rest: seq<string>)
    requires forall k :: 0 <= k < |head| ==> head[k] != [] && NoWhitespace(head[k])
    requires forall k :: 0 <= k < |rest| ==> rest[k] != [] && NoWhitespace(rest[k])
    ensures forall k :: 0 <= k < |head + rest| ==> (head + rest)[k] != [] && NoWhitespace((head + rest)[k])
    ensures Flatten(head + rest) == Flatten(head) + Flatten(rest)
  {
    FlattenAppend(head, rest);
  }

  /** A visible character extends the token read so far. */
  lemma ExtendToken(s: string, current: string)
    requires s != [] && !IsWhitespace(s[0]) && NoWhitespace(current)
    ensures NoWhitespace(current + [s[0]])
    ensures current + [s[0]] + Visible(s[1..]) == current + Visible(s)
  {
    NoWhitespaceSnoc(current, s[0]);
    VisibleCons(s, current);
  }

  lemma NoWhitespaceSnoc(current: string, c: char)
    requires NoWhitespace(current) && !IsWhitespace(c)
    ensures NoWhitespace(current + [c])
  {
    forall i | 0 <= i < |current + [c]|
      ensures !IsWhitespace((current + [c])[i])
    {
      if i < |current| {
        assert (current + [c])[i] == current[i];
      }
    }
  }

  lemma VisibleCons(s: string, current: string)
    requires s != [] && !IsWhitespace(s[0])
    ensures current + [s[0]] + Visible(s[1..]) == current + Visible(s)
  {
    var c, v := s[0], Visible(s[1..]);
    assert Visible(s) == [c] + v;
    assert current + [c] + v == current + ([c] + v);
  }

  /** `tokenize`: the whitespace separated words of a line. No token is empty
      or holds whitespace, and together they hold every other character. */
  function Tokenize(s: string): (r: seq<string>)
    ensures forall k :: 0 <= k < |r| ==> r[k] != [] && NoWhitespace(r[k])
    ensures Flatten(r) == Visible(s)
  {
    TokensFrom(s, [])
  }

  /** Words joined by single spaces. */
  function Unwords(words: seq<string>): string
  {
    if words == [] then []
    else if |words| == 1 then words[0]
    else words[0] + " " + Unwords(words[1..])
  }

  lemma {:induction false} TokensOfWord(w: string, current: string, rest: string)
    requires NoWhitespace(current) && NoWhitespace(w)
    ensures TokensFrom(w + rest, current) == TokensFrom(rest, current + w)
    decreases |w|
  {
    if w != [] {
      assert (w + rest)[1..] == w[1..] + rest;
      TokensOfWord(w[1..], current + [w[0]], rest);
      assert current + [w[0]] + w[1..] == current + w;
    } else {
      assert w + rest == rest;
      assert current + w == current;
    }
  }

  /** Tokenizing words joined by spaces gives the words back. */
  lemma {:induction false} TokenizeUnwords(words: seq<string>)
    requires forall k :: 0 <= k < |words| ==> words[k] != [] && NoWhitespace(words[k])
    ensures Tokenize(Unwords(words)) == words
  {
    if words == [] {
    } else if |words| == 1 {
      TokensOfWord(words[0], [], []);
      assert words[0] + [] == words[0];
      assert [] + words[0] == words[0];
      assert Tokenize(Unwords(words)) == TokensFrom([], words[0]);
    } else {
      var rest := " " + Unwords(words[1..]);
      assert Unwords(words) == words[0] + rest;
      TokensOfWord(words[0], [], rest);
      assert [] + words[0] == words[0];
      assert rest[1..] == Unwords(words[1..]);
      TokenizeUnwords(words[1..]);
      assert TokensFrom(rest, words[0]) == [words[0]] + TokensFrom(rest[1..], []);
    }
  }
}
