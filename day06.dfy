/** Tuning trouble (day 6): the start of a packet is found after the first
    run of `packet_len` characters that are pairwise different. */
module Day06 {
  import opened Common

  /** The characters of `w`, as the source's hash set collects them. */
  function CharSet(w: string): set<char>
  {
    set c | c in w
  }

  predicate AllDistinct(w: string)
  {
    forall i, j :: 0 <= i < j < |w| ==> w[i] != w[j]
  }

  /** A string has as many different characters as it is long exactly when
      no character repeats. */
  lemma {:induction false} DistinctCard(w: string)
    ensures |CharSet(w)| <= |w|
    ensures |CharSet(w)| == |w| <==> AllDistinct(w)
  {
    if w != [] {
      DistinctCard(w[1..]);
      assert CharSet(w) == {w[0]} + CharSet(w[1..]);
      if w[0] in w[1..] {
        assert CharSet(w) == CharSet(w[1..]);
        var j :| 0 <= j < |w[1..]| && w[1..][j] == w[0];
        assert w[0] == w[j + 1];
      } else {
        assert AllDistinct(w) <==> AllDistinct(w[1..]) by {
          if AllDistinct(w[1..]) {
            forall i, j | 0 <= i < j < |w|
              ensures w[i] != w[j]
            {
              if i == 0 {
                assert w[j] == w[1..][j - 1];
              } else {
                assert w[i] == w[1..][i - 1] && w[j] == w[1..][j - 1];
              }
            }
          }
          if AllDistinct(w) {
            forall i, j | 0 <= i < j < |w[1..]|
              ensures w[1..][i] != w[1..][j]
            {
              assert w[1..][i] == w[i + 1] && w[1..][j] == w[j + 1];
            }
          }
        }
      }
    } else {
      assert CharSet(w) == {};
    }
  }

  /** The test of one end position `n`: the `packet_len` characters before
      it are all different. */
  predicate WindowOk(s: string, packetLen: nat, n: nat)
    requires packetLen <= n <= |s|
  {
    |CharSet(s[n - packetLen..n])| == packetLen
  }

  /** The loop of `detect_start_of_packet` from end position `n` on. */
  function DetectFrom(s: string, packetLen: nat, n: nat): (r: Option<nat>)
    requires packetLen <= n
    ensures r.Some? ==> n <= r.value <= |s| && WindowOk(s, packetLen, r.value)
    ensures r.Some? ==> forall m :: n <= m < r.value ==> !WindowOk(s, packetLen, m)
    ensures r.None? <==> forall m :: n <= m <= |s| ==> !WindowOk(s, packetLen, m)
    decreases |s| - n
  {
    if n > |s| then None
    else if WindowOk(s, packetLen, n) then Some(n)
    else DetectFrom(s, packetLen, n + 1)
  }

  /** `detect_start_of_packet`: the first end position whose window holds
      `packet_len` different characters; None when there is none,
      including when `s` is shorter than `packet_len`. */
  function DetectStartOfPacket(s: string, packetLen: nat): (r: Option<nat>)
    ensures r.Some? ==> packetLen <= r.value <= |s| && WindowOk(s, packetLen, r.value)
    ensures r.Some? ==> forall m :: packetLen <= m < r.value ==> !WindowOk(s, packetLen, m)
    ensures r.None? <==> forall m :: packetLen <= m <= |s| ==> !WindowOk(s, packetLen, m)
  {
    DetectFrom(s, packetLen, packetLen)
  }

  /** A marker ends at `n`: the `packet_len` characters before it differ
      pairwise. */
  predicate MarkerAt(s: string, packetLen: nat, n: nat)
  {
    packetLen <= n <= |s| && AllDistinct(s[n - packetLen..n])
  }

  /** The answer is the smallest `n` at which a marker ends, and None means
      that no window qualifies. */
  lemma DetectMeaning(s: string, packetLen: nat)
    ensures DetectStartOfPacket(s, packetLen).Some? ==>
      (MarkerAt(s, packetLen, DetectStartOfPacket(s, packetLen).value)
       && forall m: nat :: m < DetectStartOfPacket(s, packetLen).value ==> !MarkerAt(s, packetLen, m))
    ensures DetectStartOfPacket(s, packetLen).None? <==> forall m: nat :: !MarkerAt(s, packetLen, m)
  {
    forall m | packetLen <= m <= |s|
      ensures WindowOk(s, packetLen, m) <==> MarkerAt(s, packetLen, m)
    {
      DistinctCard(s[m - packetLen..m]);
    }
  }

  /** A repeated character inside the window rules out a marker there. */
  lemma RepeatInWindow(s: string, packetLen: nat, n: nat, i: nat, j: nat)
    requires packetLen <= n <= |s| && n - packetLen <= i < j < n && s[i] == s[j]
    ensures !MarkerAt(s, packetLen, n)
  {
    var w := s[n - packetLen..n];
    assert w[i - (n - packetLen)] == w[j - (n - packetLen)];
  }

  /** A window whose characters differ pairwise ends a marker. */
  lemma DistinctWindow(s: string, packetLen: nat, n: nat)
    requires packetLen <= n <= |s|
    requires forall i, j :: n - packetLen <= i < j < n ==> s[i] != s[j]
    ensures MarkerAt(s, packetLen, n)
  {
    var w := s[n - packetLen..n];
    forall i, j | 0 <= i < j < |w|
      ensures w[i] != w[j]
    {
      assert w[i] == s[i + n - packetLen] && w[j] == s[j + n - packetLen];
    }
  }

  /** The first example of the puzzle, "mjqjpqmgbljsphdztnvjfqwrcgsmlb":
      its marker of four ends at 7, whatever follows the first seven
      characters. */
  lemma FirstExample(s: string)
    requires |s| >= 7 && s[..7] == "mjqjpqm"
    ensures DetectStartOfPacket(s, 4) == Some(7)
  {
    assert s[0] == 'm' && s[1] == 'j' && s[2] == 'q' && s[3] == 'j' by {
      assert s[0] == s[..7][0] && s[1] == s[..7][1] && s[2] == s[..7][2] && s[3] == s[..7][3];
    }
    assert s[4] == 'p' && s[5] == 'q' && s[6] == 'm' by {
      assert s[4] == s[..7][4] && s[5] == s[..7][5] && s[6] == s[..7][6];
    }
    DetectMeaning(s, 4);
    RepeatInWindow(s, 4, 4, 1, 3);
    RepeatInWindow(s, 4, 5, 1, 3);
    RepeatInWindow(s, 4, 6, 2, 5);
    DistinctWindow(s, 4, 7);
    var r := DetectStartOfPacket(s, 4);
    assert r.Some?;
    assert r.value <= 7;
    assert r.value >= 7;
  }

  /** The fourteen characters before position 19 of the second example
      differ pairwise. */
  lemma MessageWindow(s: string)
    requires |s| >= 19
    requires s[5] == 'q' && s[6] == 'm' && s[7] == 'g' && s[8] == 'b' && s[9] == 'l' && s[10] == 'j' && s[11] == 's' && s[12] == 'p' && s[13] == 'h' && s[14] == 'd' && s[15] == 'z' && s[16] == 't' && s[17] == 'n' && s[18] == 'v'
    ensures MarkerAt(s, 14, 19)
  {
    DistinctWindow(s, 14, 19);
  }

  /** The same stream read for a message marker of fourteen: it ends at 19. */
  lemma SecondExample(s: string)
    requires |s| >= 19 && s[..19] == "mjqjpqmgbljsphdztnv"
    ensures DetectStartOfPacket(s, 14) == Some(19)
  {
    assert s[0] == 'm' && s[1] == 'j' && s[2] == 'q' && s[3] == 'j' && s[4] == 'p' by {
      assert s[0] == s[..19][0] && s[1] == s[..19][1] && s[2] == s[..19][2] && s[3] == s[..19][3] && s[4] == s[..19][4];
    }
    assert s[5] == 'q' && s[6] == 'm' && s[7] == 'g' && s[8] == 'b' && s[9] == 'l' by {
      assert s[5] == s[..19][5] && s[6] == s[..19][6] && s[7] == s[..19][7] && s[8] == s[..19][8] && s[9] == s[..19][9];
    }
    assert s[10] == 'j' && s[11] == 's' && s[12] == 'p' && s[13] == 'h' && s[14] == 'd' by {
      assert s[10] == s[..19][10] && s[11] == s[..19][11] && s[12] == s[..19][12] && s[13] == s[..19][13] && s[14] == s[..19][14];
    }
    assert s[15] == 'z' && s[16] == 't' && s[17] == 'n' && s[18] == 'v' by {
      assert s[15] == s[..19][15] && s[16] == s[..19][16] && s[17] == s[..19][17] && s[18] == s[..19][18];
    }
    DetectMeaning(s, 14);
    RepeatInWindow(s, 14, 14, 0, 6);
    RepeatInWindow(s, 14, 15, 1, 3);
    RepeatInWindow(s, 14, 16, 3, 10);
    RepeatInWindow(s, 14, 17, 3, 10);
    RepeatInWindow(s, 14, 18, 4, 12);
    MessageWindow(s);
    var r := DetectStartOfPacket(s, 14);
    assert r.Some?;
    assert r.value <= 19;
    assert r.value >= 19;
  }
}
