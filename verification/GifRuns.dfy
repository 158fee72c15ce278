/** How the LZW decoder reads the two kinds of block the GIF writer sends. */
module GifRuns {
  import opened Bytes
  import opened GifLzw

  /** The decoder just after a clear code. */
  function Cleared(out: seq<byte>): State {
    Running([], [], out)
  }

  // ----- literal blocks

  /** After n literals: n-1 table entries, and the last literal as the previous string. */
  ghost predicate AfterLiterals(st: State, out: seq<byte>, n: nat) {
    && st.Running? && st.out == out
    && |st.table| == (if n == 0 then 0 else n - 1)
    && (n == 0 <==> st.prev == [])
  }

  lemma {:induction false} LiteralsRun(out: seq<byte>, lits: seq<byte>)
    requires |lits| <= 127 && SevenBit(lits)
    ensures AfterLiterals(RunBytes(Cleared(out), lits), out + lits, |lits|)
  {
    if lits == [] {
      assert out + lits == out;
    } else {
      var front, last := lits[..|lits| - 1], lits[|lits| - 1];
      LiteralsRun(out, front);
      assert front + [last] == lits;
      RunLast(Cleared(out), front, last);
      assert out + front + [last] == out + lits;
    }
  }

  /** A literal block and its clear code append the literals and leave a cleared decoder. */
  lemma LiteralBlock(out: seq<byte>, lits: seq<byte>)
    requires |lits| <= 126 && SevenBit(lits)
    ensures RunBytes(Cleared(out), lits + [CLEAR]) == Cleared(out + lits)
  {
    LiteralsRun(out, lits);
    RunLast(Cleared(out), lits, CLEAR);
  }

  /** A literal block and its clear code are read as that if and only if it has at most 126 literals: the
      code behind 127 of them is no longer eight bits wide. */
  lemma LiteralBlockLimit(out: seq<byte>, lits: seq<byte>)
    requires SevenBit(lits)
    ensures RunBytes(Cleared(out), lits + [CLEAR]) == Cleared(out + lits) <==> |lits| <= 126
  {
    if |lits| <= 126 {
      LiteralBlock(out, lits);
    } else {
      var front, rest := lits[..127], lits[127..] + [CLEAR];
      LiteralsRun(out, front);
      assert lits + [CLEAR] == front + rest;
      RunConcat(Cleared(out), front, rest);
    }
  }

  // ----- run blocks

  function RunTable(k: byte, n: nat): (t: seq<seq<byte>>)
    ensures |t| == n
  {
    seq(n, i requires 0 <= i => Repeat(k, i + 2))
  }

  /** The decoder after n codes of a run block of colour k: code 129+m stands for m+1 copies of k, so that
      the codes cover Triangle(n) pixels. */
  function RunState(out: seq<byte>, k: byte, n: nat): State
    requires n > 0
  {
    Running(RunTable(k, n - 1), Repeat(k, n), out + Repeat(k, Triangle(n)))
  }

  /** Code 129+m of a run block. */
  function RunCode(k: byte, m: nat): byte
    requires m <= 120
  {
    if m == 0 then k else 129 + m
  }

  function RunCodes(k: byte, n: nat): (s: seq<byte>)
    requires n <= 121
    ensures |s| == n
  {
    seq(n, m requires 0 <= m < n => RunCode(k, m))
  }

  lemma RepeatConcat(k: byte, a: nat, b: nat)
    ensures Repeat(k, a) + Repeat(k, b) == Repeat(k, a + b)
  {
  }

  lemma RunStateLookup(out: seq<byte>, k: byte, n: nat, m: nat)
    requires 1 <= m <= n && k < 128
    ensures Lookup(RunState(out, k, n), 129 + m) == Some(Repeat(k, m + 1))
  {
    var st := RunState(out, k, n);
    if m < n {
      assert st.table[m - 1] == Repeat(k, m + 1);
    } else {
      RepeatConcat(k, n, 1);
      assert [k] == Repeat(k, 1);
    }
  }

  /** The code about to be defined extends the run by one more pixel than the last code. */
  lemma RunStateStep(out: seq<byte>, k: byte, n: nat)
    requires 1 <= n <= 120 && k < 128
    ensures Step(RunState(out, k, n), 129 + n) == RunState(out, k, n + 1)
  {
    var st := RunState(out, k, n);
    RunStateLookup(out, k, n, n);
    assert Repeat(k, n) + [k] == Repeat(k, n + 1);
    assert RunTable(k, n - 1) + [Repeat(k, n + 1)] == RunTable(k, n);
    RepeatConcat(k, Triangle(n), n + 1);
    assert out + Repeat(k, Triangle(n)) + Repeat(k, n + 1) == out + Repeat(k, Triangle(n + 1));
  }

  lemma {:induction false} RunCodesRun(out: seq<byte>, k: byte, n: nat)
    requires 1 <= n <= 120 && k < 128
    ensures RunBytes(Cleared(out), RunCodes(k, n)) == RunState(out, k, n)
  {
    if n == 1 {
      assert RunCodes(k, 1) == [] + [k];
      RunLast(Cleared(out), [], k);
      assert Triangle(1) == 1;
      assert [k] == Repeat(k, 1);
      assert RunTable(k, 0) == [];
    } else {
      RunCodesRun(out, k, n - 1);
      assert RunCodes(k, n) == RunCodes(k, n - 1) + [129 + (n - 1)];
      RunLast(Cleared(out), RunCodes(k, n - 1), 129 + (n - 1));
      RunStateStep(out, k, n - 1);
    }
  }

  /** A run block of n codes and its clear code append Triangle(n) pixels. */
  lemma RunBlock(out: seq<byte>, k: byte, n: nat)
    requires 1 <= n <= 120 && k < 128
    ensures RunBytes(Cleared(out), RunCodes(k, n) + [CLEAR]) == Cleared(out + Repeat(k, Triangle(n)))
  {
    RunCodesRun(out, k, n);
    RunLast(Cleared(out), RunCodes(k, n), CLEAR);
  }

  lemma RunState120(out: seq<byte>, k: byte, m: nat)
    requires m <= 120 && k < 128
    ensures RunBytes(Cleared(out), RunCodes(k, 120) + [129 + m]) == Step(RunState(out, k, 120), 129 + m)
  {
    RunCodesRun(out, k, 120);
    RunLast(Cleared(out), RunCodes(k, 120), 129 + m);
  }

  /** The 121-code block: its last code, 129+m, adds m+1 pixels. */
  lemma LongRunBlock(out: seq<byte>, k: byte, m: nat)
    requires 1 <= m <= 120 && k < 128
    ensures RunBytes(Cleared(out), RunCodes(k, 120) + [129 + m] + [CLEAR]) == Cleared(out + Repeat(k, 7260 + m + 1))
  {
    RunState120(out, k, m);
    LastCodeOfLongRun(out, k, m);
    RunLast(Cleared(out), RunCodes(k, 120) + [129 + m], CLEAR);
  }

  lemma LastCodeOfLongRun(out: seq<byte>, k: byte, m: nat)
    requires 1 <= m <= 120 && k < 128
    ensures var st := Step(RunState(out, k, 120), 129 + m);
      st.Running? && Width(st.table) == 8 && st.out == out + Repeat(k, 7260 + m + 1)
  {
    TriangleIsHalfProduct(120);
    RunStateLookup(out, k, 120, m);
    RepeatConcat(k, 7260, m + 1);
    Assoc(out, Repeat(k, 7260), Repeat(k, m + 1));
  }

  /** With one pixel left the last code is the end code, and the image stops one pixel early. */
  lemma BrokenRunBlock(out: seq<byte>, k: byte)
    requires k < 128
    ensures RunBytes(Cleared(out), RunCodes(k, 120) + [129] + [CLEAR]) == Finished(out + Repeat(k, 7260))
  {
    TriangleIsHalfProduct(120);
    RunState120(out, k, 0);
    RunConcat(Cleared(out), RunCodes(k, 120) + [129], [CLEAR]);
  }

  // ----- runs of equal pixels

  /** The end of the run of equal pixels that starts at i. */
  function RunEnd(img: seq<byte>, i: nat): (e: nat)
    requires i < |img|
    ensures i < e <= |img|
    ensures forall q :: i <= q < e ==> img[q] == img[i]
    ensures e < |img| ==> img[e] != img[i]
    decreases |img| - i
  {
    if i + 1 < |img| && img[i + 1] == img[i] then RunEnd(img, i + 1) else i + 1
  }

  lemma {:induction false} RunEndInside(img: seq<byte>, i: nat, q: nat)
    requires i < |img| && i <= q < RunEnd(img, i)
    ensures RunEnd(img, q) == RunEnd(img, i)
    decreases q - i
  {
    if i < q {
      RunEndInside(img, i + 1, q);
    }
  }

  lemma RunIsRepeat(img: seq<byte>, i: nat, n: nat)
    requires i < |img| && i + n <= RunEnd(img, i)
    ensures img[i..i + n] == Repeat(img[i], n)
  {
  }

  lemma RunJoins(img: seq<byte>, i: nat, n: nat)
    requires i < |img| && i + n <= RunEnd(img, i)
    ensures img[..i] + Repeat(img[i], n) == img[..i + n]
  {
    RunIsRepeat(img, i, n);
    assert img[..i] + img[i..i + n] == img[..i + n];
  }

  /** A maximal run whose length is 1 modulo 7260, and not 1: the run the writer cuts short. */
  ghost predicate StrayRun(img: seq<byte>, s: nat) {
    && s < |img|
    && (s == 0 || img[s - 1] != img[s])
    && RunEnd(img, s) - s >= 7261
    && (RunEnd(img, s) - s) % 7260 == 1
  }

  ghost predicate NoStrayRun(img: seq<byte>) {
    forall s :: 0 <= s < |img| ==> !StrayRun(img, s)
  }

  /**
   Where the writer is among the maximal runs: at pixel i of the run that starts at s, with no stray run
   before s. Inside a run it has either sent whole blocks of 7260 and has 122 or more pixels to go, or
   `safe`: at most 120 are left of a run that is not stray.
   */
  ghost predicate Position(img: seq<byte>, i: nat, s: nat, safe: bool) {
    && s <= i <= |img|
    && (forall q :: 0 <= q < s ==> !StrayRun(img, q))
    && (s == i ==> i == 0 || i == |img| || img[i - 1] != img[i])
    && (s < i ==>
          && (s == 0 || img[s - 1] != img[s])
          && i < RunEnd(img, s)
          && (if safe then !StrayRun(img, s) && RunEnd(img, s) - i <= 120
              else (i - s) % 7260 == 0 && RunEnd(img, s) - i >= 122))
  }

  lemma PositionInRun(img: seq<byte>, i: nat, s: nat, safe: bool)
    requires Position(img, i, s, safe) && i < |img|
    ensures RunEnd(img, s) == RunEnd(img, i) && (s == 0 || img[s - 1] != img[s])
    ensures forall q :: s < q < RunEnd(img, s) ==> !StrayRun(img, q)
  {
    if s < i {
      RunEndInside(img, s, i);
    }
    assert forall q :: s < q < RunEnd(img, s) ==> img[q - 1] == img[q];
  }

  /** The rest of the run is sent and the run was not stray: on to the next run. */
  lemma RunDone(img: seq<byte>, i: nat, s: nat, safe: bool)
    requires Position(img, i, s, safe) && i < |img|
    requires var left := RunEnd(img, i) - i; left <= 6 || 7262 <= left <= 7381
    ensures Position(img, RunEnd(img, i), RunEnd(img, i), false)
  {
    PositionInRun(img, i, s, safe);
  }

  /** A short block was sent and at most 120 pixels of the run are left. */
  lemma RunPartlySent(img: seq<byte>, i: nat, s: nat, safe: bool, n: nat)
    requires Position(img, i, s, safe) && i < |img|
    requires 7 <= RunEnd(img, i) - i <= 7260 && 0 < n
    requires 1 <= RunEnd(img, i) - i - n <= 120
    ensures Position(img, i + n, s, true)
  {
    PositionInRun(img, i, s, safe);
  }

  /** A full block of 7260 pixels was sent and 122 or more are left. */
  lemma BlockOfRunSent(img: seq<byte>, i: nat, s: nat, safe: bool)
    requires Position(img, i, s, safe) && i < |img|
    requires RunEnd(img, i) - i - 7260 >= 122
    ensures Position(img, i + 7260, s, false)
  {
    PositionInRun(img, i, s, safe);
  }

  lemma LeftoverPixel(img: seq<byte>, i: nat, s: nat, safe: bool)
    requires Position(img, i, s, safe) && i < |img|
    requires RunEnd(img, i) - i == 7261
    ensures StrayRun(img, s)
  {
    PositionInRun(img, i, s, safe);
  }

  /** On a one-colour image the condition is on the number of pixels alone. */
  lemma SolidImage(k: byte, n: nat)
    requires n > 0
    ensures NoStrayRun(Repeat(k, n)) <==> n < 7261 || n % 7260 != 1
  {
    var img := Repeat(k, n);
    assert RunEnd(img, 0) == n;
    if n >= 7261 && n % 7260 == 1 {
      assert StrayRun(img, 0);
    }
  }
}
