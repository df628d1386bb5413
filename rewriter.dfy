/** Specification of the ESC/POS "double size" rewrite performed on every
    receipt before it is sent to the printer.

    The rewrite is a single left-to-right scan over the input. At each scan
    position it recognises, in this order of priority:
      - a separator run: 42 dash bytes, copied verbatim;
      - a size command: `ESC '!' x`, replaced by `ESC '!' 0x30`;
      - any other byte, copied unchanged.
    After the scan, `ESC '!' 0x30` is prepended when the scanned output has no
    `ESC '!'` pair starting before its last two positions. */
module DoubleSizeRewriter {

  newtype byte = b: int | 0 <= b < 0x100

  const Esc: byte := 0x1B
  const Bang: byte := 0x21
  const DoubleSizeParam: byte := 0x30
  const Dash: byte := 0x2D
  const SeparatorLength: nat := 42

  /** The size command every output is guaranteed to carry. */
  const DoubleSize: seq<byte> := [Esc, Bang, DoubleSizeParam]

  /** Every byte of r is a dash. */
  predicate AllDashes(r: seq<byte>)
  {
    forall k :: 0 <= k < |r| ==> r[k] == Dash
  }

  // ---------------------------------------------------------------------------
  // Tokens recognised at a scan position

  /** 42 dash bytes start at index i (a run ending exactly at the end counts). */
  predicate SeparatorAt(s: seq<byte>, i: nat)
  {
    i + SeparatorLength <= |s| && AllDashes(s[i..i + SeparatorLength])
  }

  /** Each byte of a separator run is a dash. */
  lemma SeparatorByte(s: seq<byte>, i: nat, k: nat)
    requires SeparatorAt(s, i) && i <= k < i + SeparatorLength
    ensures s[k] == Dash
  {
    assert s[k] == s[i..i + SeparatorLength][k - i];
  }

  /** 42 dashes from index i form a separator run. */
  lemma SeparatorOfDashes(s: seq<byte>, i: nat)
    requires i + SeparatorLength <= |s|
    requires forall k :: i <= k < i + SeparatorLength ==> s[k] == Dash
    ensures SeparatorAt(s, i)
  {
    var run := s[i..i + SeparatorLength];
    forall k | 0 <= k < |run|
      ensures run[k] == Dash
    {
      assert run[k] == s[i + k];
    }
  }

  /** A size command `ESC '!' <param>` starts at index i. */
  predicate CommandAt(s: seq<byte>, i: nat)
  {
    i + 3 <= |s| && s[i] == Esc && s[i + 1] == Bang
  }

  /** A separator run never starts with ESC, so at one position the scan never
      has to choose between the two; the separator test still runs first. */
  lemma SeparatorExcludesCommand(s: seq<byte>, i: nat)
    requires SeparatorAt(s, i)
    ensures !CommandAt(s, i)
  {
    SeparatorByte(s, i, i);
  }

  /** How far the scan advances from position i. */
  function Step(s: seq<byte>, i: nat): (n: nat)
    requires i < |s|
    ensures n == 1 || n == 3 || n == SeparatorLength
    ensures i + n <= |s|
  {
    if SeparatorAt(s, i) then SeparatorLength
    else if CommandAt(s, i) then 3
    else 1
  }

  /** What the scan emits for the token at position i. */
  function Token(s: seq<byte>, i: nat): (t: seq<byte>)
    requires i < |s|
    ensures |t| == Step(s, i)
  {
    if SeparatorAt(s, i) then s[i..i + SeparatorLength]
    else if CommandAt(s, i) then DoubleSize
    else [s[i]]
  }

  // ---------------------------------------------------------------------------
  // The scan pass and the fallback

  /** Output of the scan started at position i. */
  function ScanFrom(s: seq<byte>, i: nat): (r: seq<byte>)
    requires i <= |s|
    ensures |r| == |s| - i
    decreases |s| - i
  {
    if i == |s| then [] else Token(s, i) + ScanFrom(s, i + Step(s, i))
  }

  /** Output of the whole scan pass, before the fallback. */
  function ScanPass(s: seq<byte>): seq<byte>
  {
    ScanFrom(s, 0)
  }

  /** An `ESC '!'` pair starts at some j < |r| - 2 (the fallback's search window). */
  predicate HasEscPair(r: seq<byte>)
  {
    exists j :: 0 <= j < |r| - 2 && r[j] == Esc && r[j + 1] == Bang
  }

  /** The complete rewrite: the scan pass, then the fallback prefix. */
  function Rewrite(s: seq<byte>): seq<byte>
  {
    var r := ScanPass(s);
    if HasEscPair(r) then r else DoubleSize + r
  }

  /** `ESC '!' 0x30` starts at index j of r. */
  predicate DoubleSizeAt(r: seq<byte>, j: nat)
  {
    j + 3 <= |r| && r[j] == Esc && r[j + 1] == Bang && r[j + 2] == DoubleSizeParam
  }

  // ---------------------------------------------------------------------------
  // Scan positions

  /** Starting the scan at `from`, the scan reaches position i. */
  predicate ReachedFrom(s: seq<byte>, from: nat, i: nat)
    requires from <= |s|
    decreases |s| - from
  {
    from == i || (from < i && from < |s| && ReachedFrom(s, from + Step(s, from), i))
  }

  /** The scan of the whole input reaches position i. */
  predicate Reached(s: seq<byte>, i: nat)
  {
    ReachedFrom(s, 0, i)
  }

  /** The byte at k is the parameter of a size command the scan rewrote.
      The `!SeparatorAt` conjunct follows from `CommandAt` (see
      `SeparatorExcludesCommand`); it is kept to mirror the scan's test order. */
  predicate ParamRewrittenFrom(s: seq<byte>, from: nat, k: nat)
    requires from <= |s|
  {
    from + 2 <= k && ReachedFrom(s, from, k - 2) && CommandAt(s, k - 2) && !SeparatorAt(s, k - 2)
  }

  predicate ParamRewritten(s: seq<byte>, k: nat)
  {
    ParamRewrittenFrom(s, 0, k)
  }

  // ---------------------------------------------------------------------------
  // Lemmas about the scan

  /** Scan positions never go backwards nor beyond the end of the input. */
  lemma {:induction false} ReachedBounds(s: seq<byte>, from: nat, i: nat)
    requires from <= |s|
    requires ReachedFrom(s, from, i)
    ensures from <= i <= |s|
    decreases |s| - from
  {
    if from != i {
      ReachedBounds(s, from + Step(s, from), i);
    }
  }

  /** Once the scan reaches i, what it emits from there on is the scan started at i. */
  lemma {:induction false} ScanFromSuffix(s: seq<byte>, from: nat, i: nat)
    requires from <= |s|
    requires ReachedFrom(s, from, i)
    ensures from <= i <= |s|
    ensures ScanFrom(s, from)[i - from..] == ScanFrom(s, i)
    decreases |s| - from
  {
    ReachedBounds(s, from, i);
    if from != i {
      var n := Step(s, from);
      ScanFromSuffix(s, from + n, i);
      ScanFromSplit(s, from);
    }
  }

  /** A separator run at a reached position is copied verbatim and the scan resumes 42 bytes later. */
  lemma SeparatorCopied(s: seq<byte>, i: nat)
    requires Reached(s, i)
    requires SeparatorAt(s, i)
    ensures ScanPass(s)[i..i + SeparatorLength] == s[i..i + SeparatorLength]
    ensures Reached(s, i + SeparatorLength)
  {
    ScanFromSuffix(s, 0, i);
    assert ScanPass(s)[i..] == ScanFrom(s, i);
    ScanFromSplit(s, i);
    ReachedAfter(s, 0, i);
  }

  /** A size command at a reached position becomes `ESC '!' 0x30`, whatever its parameter. */
  lemma CommandRewritten(s: seq<byte>, i: nat)
    requires Reached(s, i)
    requires CommandAt(s, i)
    ensures ScanPass(s)[i..i + 3] == DoubleSize
    ensures Reached(s, i + 3)
  {
    if SeparatorAt(s, i) {
      SeparatorExcludesCommand(s, i);
    }
    ScanFromSuffix(s, 0, i);
    assert ScanPass(s)[i..] == ScanFrom(s, i);
    ScanFromSplit(s, i);
    ReachedAfter(s, 0, i);
  }

  /** Any other byte at a reached position is copied and the scan moves on by one. */
  lemma PlainCopied(s: seq<byte>, i: nat)
    requires Reached(s, i) && i < |s|
    requires !CommandAt(s, i) && !SeparatorAt(s, i)
    ensures ScanPass(s)[i] == s[i]
    ensures Reached(s, i + 1)
  {
    ScanFromSuffix(s, 0, i);
    assert ScanPass(s)[i..] == ScanFrom(s, i);
    ScanFromSplit(s, i);
    ReachedAfter(s, 0, i);
  }

  /** From a reached position before the end, the scan reaches the next token too. */
  lemma {:induction false} ReachedAfter(s: seq<byte>, from: nat, i: nat)
    requires from <= |s|
    requires ReachedFrom(s, from, i) && i < |s|
    ensures ReachedFrom(s, from, i + Step(s, i))
    decreases |s| - from
  {
    ReachedBounds(s, from, i);
    if from != i {
      ReachedAfter(s, from + Step(s, from), i);
    }
  }

  /** Positions strictly inside a token are never reached. */
  lemma InsideTokenNotReached(s: seq<byte>, from: nat, i: nat)
    requires from < |s|
    requires from < i < from + Step(s, from)
    ensures !ReachedFrom(s, from, i)
  {
    if ReachedFrom(s, from, i) {
      ReachedBounds(s, from + Step(s, from), i);
    }
  }

  /** Byte by byte, the scan output equals the input except at the parameter
      byte of each rewritten size command, which becomes 0x30. */
  lemma {:induction false} ScanFromAt(s: seq<byte>, from: nat, k: nat)
    requires from <= k < |s|
    ensures ScanFrom(s, from)[k - from] ==
            if ParamRewrittenFrom(s, from, k) then DoubleSizeParam else s[k]
    decreases |s| - from
  {
    var n := Step(s, from);
    ScanFromSplit(s, from);
    if k < from + n {
      ByteInsideToken(s, from, k);
    } else {
      ScanFromAt(s, from + n, k);
      ParamRewrittenStep(s, from, k);
    }
  }

  /** Inside the first token, the emitted byte is the parameter 0x30 exactly
      at the third byte of a rewritten command, and the input byte elsewhere. */
  lemma ByteInsideToken(s: seq<byte>, from: nat, k: nat)
    requires from <= k < |s|
    requires k < from + Step(s, from)
    ensures Token(s, from)[k - from] ==
            if ParamRewrittenFrom(s, from, k) then DoubleSizeParam else s[k]
  {
    if from + 2 < k {
      InsideTokenNotReached(s, from, k - 2);
    }
    if SeparatorAt(s, from) {
      assert Token(s, from)[k - from] == s[k];
      assert !ParamRewrittenFrom(s, from, k);
    }
  }

  /** Past the first token, being a rewritten parameter does not depend on
      whether the scan is taken to start at the token or after it. */
  lemma ParamRewrittenStep(s: seq<byte>, from: nat, k: nat)
    requires from < |s| && from + Step(s, from) <= k
    ensures ParamRewrittenFrom(s, from, k) == ParamRewrittenFrom(s, from + Step(s, from), k)
  {
    var n := Step(s, from);
    if from + n + 2 <= k {
      assert ReachedFrom(s, from, k - 2) == ReachedFrom(s, from + n, k - 2);
    } else if from < k - 2 {
      InsideTokenNotReached(s, from, k - 2);
    }
  }

  /** The same, for the scan of the whole input: the scan pass changes no byte
      but the parameters of the size commands it rewrites. */
  lemma ScanPassAt(s: seq<byte>, k: nat)
    requires k < |s|
    ensures ScanPass(s)[k] == if ParamRewritten(s, k) then DoubleSizeParam else s[k]
  {
    ScanFromAt(s, 0, k);
  }

  /** The start of the token that covers position k, for the scan started at `from`. */
  function TokenStart(s: seq<byte>, from: nat, k: nat): (r: nat)
    requires from <= k < |s|
    ensures ReachedFrom(s, from, r)
    ensures r <= k < r + Step(s, r)
    decreases |s| - from
  {
    if k < from + Step(s, from) then from else TokenStart(s, from + Step(s, from), k)
  }

  /** Of two positions the scan reaches, the later one is reached from the earlier. */
  lemma {:induction false} ReachedChain(s: seq<byte>, from: nat, a: nat, b: nat)
    requires from <= |s|
    requires ReachedFrom(s, from, a) && ReachedFrom(s, from, b) && a <= b
    ensures a <= |s| && ReachedFrom(s, a, b)
    decreases |s| - from
  {
    ReachedBounds(s, from, a);
    if from != a {
      ReachedChain(s, from + Step(s, from), a, b);
    }
  }

  /** The token covering position k is unique: two scan positions whose
      tokens both cover k are the same position. */
  lemma TokenStartUnique(s: seq<byte>, k: nat, r1: nat, r2: nat)
    requires r1 <= k < |s| && r2 <= k
    requires Reached(s, r1) && k < r1 + Step(s, r1)
    requires Reached(s, r2) && k < r2 + Step(s, r2)
    ensures r1 == r2
  {
    if r1 < r2 {
      ReachedChain(s, 0, r1, r2);
      InsideTokenNotReached(s, r1, r2);
    } else if r2 < r1 {
      ReachedChain(s, 0, r2, r1);
      InsideTokenNotReached(s, r2, r1);
    }
  }

  /** In the scan output, an `ESC '!'` pair with a byte after it is always a
      size command of the input at a scan position, rewritten, so its third
      byte is 0x30. */
  lemma EscPairIsCommand(s: seq<byte>, j: nat)
    requires j + 2 < |s|
    requires ScanPass(s)[j] == Esc && ScanPass(s)[j + 1] == Bang
    ensures Reached(s, j) && CommandAt(s, j)
    ensures ScanPass(s)[j + 2] == DoubleSizeParam
  {
    ScanPassAt(s, j);
    ScanPassAt(s, j + 1);
    assert CommandAt(s, j);
    var r := TokenStart(s, 0, j);
    if SeparatorAt(s, r) {
      SeparatorByte(s, r, j);
      assert false;
    } else if !CommandAt(s, r) {
      assert false;
    } else if r + 2 == j {
      // The ESC would be the parameter of an earlier command, rewritten to 0x30.
      assert false;
    } else {
      assert r == j;
      CommandRewritten(s, j);
      assert ScanPass(s)[j + 2] == ScanPass(s)[j..j + 3][2];
    }
  }

  /** The scan output from a position is its first token followed by the scan after it. */
  lemma ScanFromSplit(s: seq<byte>, from: nat)
    requires from < |s|
    ensures ScanFrom(s, from) == Token(s, from) + ScanFrom(s, from + Step(s, from))
  {
  }

  /** Emitting the token at a position keeps "output so far + scan of the
      rest = whole scan" true one token later. */
  lemma ScanFromAdvance(s: seq<byte>, i: nat, done: seq<byte>)
    requires i < |s|
    requires done + ScanFrom(s, i) == ScanPass(s)
    ensures (done + Token(s, i)) + ScanFrom(s, i + Step(s, i)) == ScanPass(s)
  {
    ScanFromSplit(s, i);
  }

  /** A stream whose every size command already selects double size is left
      unchanged by the scan. */
  lemma ScanPassFixed(r: seq<byte>)
    requires forall i :: CommandAt(r, i) ==> r[i + 2] == DoubleSizeParam
    ensures ScanPass(r) == r
  {
    forall k | 0 <= k < |r|
      ensures ScanPass(r)[k] == r[k]
    {
      ScanPassAt(r, k);
    }
  }

  /** Scanning the scan output again changes nothing. */
  lemma ScanPassIdempotent(s: seq<byte>)
    ensures ScanPass(ScanPass(s)) == ScanPass(s)
  {
    var t := ScanPass(s);
    forall i: nat | CommandAt(t, i)
      ensures t[i + 2] == DoubleSizeParam
    {
      EscPairIsCommand(s, i);
    }
    ScanPassFixed(t);
  }

  // ---------------------------------------------------------------------------
  // Lemmas about the complete rewrite

  /** The output is exactly as long as the input, or 3 bytes longer when the fallback fires. */
  lemma RewriteLength(s: seq<byte>)
    ensures |Rewrite(s)| == if HasEscPair(ScanPass(s)) then |s| else |s| + 3
  {
  }

  /** The scan rewrote at least one size command of the input. */
  predicate RewroteCommand(s: seq<byte>)
  {
    exists i: nat :: i < |s| && Reached(s, i) && CommandAt(s, i)
  }

  /** The fallback's search finds an `ESC '!'` pair in the scan output exactly
      when the scan output holds a full `ESC '!' 0x30`: the search, though it
      skips the last pair, misses no double-size command. */
  lemma EscPairIffDoubleSize(s: seq<byte>)
    ensures HasEscPair(ScanPass(s)) <==> exists j: nat :: DoubleSizeAt(ScanPass(s), j)
  {
    var r := ScanPass(s);
    if HasEscPair(r) {
      var j: nat :| j < |r| - 2 && r[j] == Esc && r[j + 1] == Bang;
      EscPairIsCommand(s, j);
      assert DoubleSizeAt(r, j);
    }
  }

  /** The search finds a pair exactly when the scan rewrote a size command. */
  lemma EscPairIffRewroteCommand(s: seq<byte>)
    ensures HasEscPair(ScanPass(s)) <==> RewroteCommand(s)
  {
    var r := ScanPass(s);
    if HasEscPair(r) {
      var j: nat :| j < |r| - 2 && r[j] == Esc && r[j + 1] == Bang;
      EscPairIsCommand(s, j);
    }
    if RewroteCommand(s) {
      var i: nat :| i < |s| && Reached(s, i) && CommandAt(s, i);
      CommandRewritten(s, i);
      assert r[i..i + 3][0] == Esc && r[i..i + 3][1] == Bang;
    }
  }

  /** The fallback prepends `ESC '!' 0x30` exactly when the scan rewrote no size
      command; otherwise the scan output is returned as it is. */
  lemma FallbackExactly(s: seq<byte>)
    ensures Rewrite(s) == DoubleSize + ScanPass(s) <==> !RewroteCommand(s)
    ensures Rewrite(s) == ScanPass(s) <==> RewroteCommand(s)
  {
    EscPairIffRewroteCommand(s);
  }

  /** Every output carries at least one `ESC '!' 0x30`. */
  lemma RewriteHasDoubleSize(s: seq<byte>)
    ensures exists j :: DoubleSizeAt(Rewrite(s), j)
  {
    var r := ScanPass(s);
    if HasEscPair(r) {
      var j :| 0 <= j < |r| - 2 && r[j] == Esc && r[j + 1] == Bang;
      EscPairIsCommand(s, j);
      assert DoubleSizeAt(Rewrite(s), j);
    } else {
      assert DoubleSizeAt(Rewrite(s), 0);
    }
  }

  /** An input without any ESC byte is prefixed with `ESC '!' 0x30` and otherwise unchanged. */
  lemma NoEscPrefixed(s: seq<byte>)
    requires forall k :: 0 <= k < |s| ==> s[k] != Esc
    ensures Rewrite(s) == DoubleSize + s
  {
    var r := ScanPass(s);
    forall k | 0 <= k < |s|
      ensures r[k] == s[k]
    {
      ScanPassAt(s, k);
    }
    assert r == s;
  }

  /** Empty input yields exactly `ESC '!' 0x30`. */
  lemma EmptyInput()
    ensures Rewrite([]) == DoubleSize
  {
  }

  /** An input shorter than 3 bytes leaves the search window empty: it is
      copied through and always gets the prefix, even when it holds ESC. */
  lemma ShortInputPrefixed(s: seq<byte>)
    requires |s| < 3
    ensures Rewrite(s) == DoubleSize + s
  {
    forall k | 0 <= k < |s|
      ensures ScanPass(s)[k] == s[k]
    {
      ScanPassAt(s, k);
    }
    assert ScanPass(s) == s;
  }

  /** Rewriting an already rewritten stream changes nothing: its size commands
      are already `ESC '!' 0x30`, and it always carries one, so the fallback
      does not fire again. */
  lemma RewriteIdempotent(s: seq<byte>)
    ensures Rewrite(Rewrite(s)) == Rewrite(s)
  {
    var t := ScanPass(s);
    ScanPassIdempotent(s);
    if !HasEscPair(t) {
      var r := DoubleSize + t;
      forall i: nat | CommandAt(r, i)
        ensures r[i + 2] == DoubleSizeParam
      {
        if i >= 3 {
          // That would be an ESC '!' pair of t before its last two bytes.
          assert false;
        }
      }
      ScanPassFixed(r);
      assert r[0] == Esc && r[1] == Bang;
    }
  }

  // Worked examples

  /** n dash bytes. */
  function Dashes(n: nat): (r: seq<byte>)
    ensures |r| == n
    ensures forall k :: 0 <= k < n ==> r[k] == Dash
  {
    if n == 0 then [] else Dashes(n - 1) + [Dash]
  }

  /** A full separator run of 42 dashes. */
  const SeparatorRun: seq<byte> := Dashes(SeparatorLength)

  /** Whatever parameter a size command carries, it comes out as 0x30, and no prefix is added. */
  lemma ParameterForced()
    ensures Rewrite([Esc, Bang, 0x99]) == DoubleSize
  {
    var s: seq<byte> := [Esc, Bang, 0x99];
    assert CommandAt(s, 0) && !SeparatorAt(s, 0);
    ScanFromSplit(s, 0);
    assert ScanPass(s) == DoubleSize;
    assert ScanPass(s)[0] == Esc && ScanPass(s)[1] == Bang;
  }

  /** A lone separator run is kept, and the fallback still prepends the command. */
  lemma SeparatorOnly()
    ensures Rewrite(SeparatorRun) == DoubleSize + SeparatorRun
  {
    NoEscPrefixed(SeparatorRun);
  }

  /** A separator run followed by a size command: the run is copied, the command rewritten. */
  lemma SeparatorThenCommand()
    ensures Rewrite(SeparatorRun + [Esc, Bang, 0x05]) == SeparatorRun + DoubleSize
  {
    var s := SeparatorRun + [Esc, Bang, 0x05];
    SeparatorOfDashes(s, 0);
    ScanFromSplit(s, 0);
    assert CommandAt(s, 42);
    assert !SeparatorAt(s, 42);
    ScanFromSplit(s, 42);
    assert ScanPass(s) == SeparatorRun + DoubleSize;
    assert ScanPass(s)[42] == Esc && ScanPass(s)[43] == Bang;
  }

  /** A receipt that starts by selecting normal size prints in double size. */
  lemma TicketExample()
    ensures Rewrite([Esc, Bang, 0x00, 0x48, 0x49]) == [Esc, Bang, 0x30, 0x48, 0x49]
  {
    var s: seq<byte> := [Esc, Bang, 0x00, 0x48, 0x49];
    ScanFromSplit(s, 0);
    ScanFromSplit(s, 3);
    ScanFromSplit(s, 4);
    assert ScanPass(s) == [Esc, Bang, 0x30, 0x48, 0x49];
    assert ScanPass(s)[0] == Esc && ScanPass(s)[1] == Bang;
  }

  /** A trailing `ESC '!'` without a parameter byte is copied as is and does not
      stop the fallback from prepending the command. */
  lemma TrailingPairStillPrefixed()
    ensures Rewrite([Esc, Bang]) == DoubleSize + [Esc, Bang]
  {
    var s: seq<byte> := [Esc, Bang];
    ScanFromSplit(s, 0);
    ScanFromSplit(s, 1);
    assert ScanPass(s) == [Esc, Bang];
  }
}
