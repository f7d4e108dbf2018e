/**
 * The decoder's own record of a progressive script: the coef_bits table that start_pass of jdarith.c keeps, and
 * when it draws a warning. A script that the compressor's validation accepts never does.
 */
module DecoderProgression {
  import opened Blocks
  import opened Progression

  /** The scan does not continue what has been seen of coefficient k of component c. */
  predicate Unexpected(before: Script, s: ScanInfo, c: int, k: int) {
    s.ah != if LevelAt(before, c, k) < 0 then 0 else LevelAt(before, c, k)
  }

  /** AC without a prior DC scan, or an Ah that was not expected. */
  predicate Bogus(before: Script, s: ScanInfo, c: int) {
    (s.ss != 0 && LevelAt(before, c, 0) < 0) || exists k :: s.ss <= k <= s.se && Unexpected(before, s, c, k)
  }

  class ScanStatus {
    const n: nat                     // num_components
    const coefBits: array2<int>      // -1 until a coefficient has been seen; then the last Al

    /** jinit_arith_decoder for a progressive file. */
    constructor (n: nat)
      ensures this.n == n && fresh(coefBits) && Describes([])
    {
      this.n := n;
      coefBits := new int[n, DCTSIZE2]((c, k) => -1);
    }

    ghost predicate Describes(before: Script)
      reads coefBits
    {
      && coefBits.Length0 == n && coefBits.Length1 == DCTSIZE2
      && forall c, k :: 0 <= c < n && 0 <= k < DCTSIZE2 ==> coefBits[c, k] == LevelAt(before, c, k)
    }

    /** One component of the scan. */
    method NoteComponent(s: ScanInfo, c: int, ghost before: Script) returns (warned: bool)
      requires coefBits.Length0 == n && coefBits.Length1 == DCTSIZE2 && 0 <= c < n && BandOk(s)
      requires forall k :: 0 <= k < DCTSIZE2 ==> coefBits[c, k] == LevelAt(before, c, k)
      modifies coefBits
      ensures warned <==> Bogus(before, s, c)
      ensures forall k :: 0 <= k < DCTSIZE2 ==> coefBits[c, k] == if s.ss <= k <= s.se then s.al else LevelAt(before, c, k)
      ensures forall c', k :: 0 <= c' < n && 0 <= k < DCTSIZE2 && c' != c ==> coefBits[c', k] == old(coefBits[c', k])
    {
      hide LevelAt;
      warned := s.ss != 0 && coefBits[c, 0] < 0;
      ghost var dcFirst := warned;
      for coefi := s.ss to s.se + 1
        invariant warned <==> dcFirst || exists k :: s.ss <= k < coefi && Unexpected(before, s, c, k)
        invariant forall k :: 0 <= k < DCTSIZE2 ==> coefBits[c, k] == if s.ss <= k < coefi then s.al else LevelAt(before, c, k)
        invariant forall c', k :: 0 <= c' < n && 0 <= k < DCTSIZE2 && c' != c ==> coefBits[c', k] == old(coefBits[c', k])
      {
        var expected := if coefBits[c, coefi] < 0 then 0 else coefBits[c, coefi];
        assert s.ah != expected <==> Unexpected(before, s, c, coefi);
        if s.ah != expected {
          warned := true;
        }
        coefBits[c, coefi] := s.al;
      }
    }

    /** The part of start_pass that updates the progression status and verifies that the scan order is legal. */
    method StartScan(s: ScanInfo, ghost before: Script) returns (warned: bool)
      requires Describes(before) && ComponentsOk(n, s) && BandOk(s)
      modifies coefBits
      ensures warned <==> exists c :: c in s.comps && Bogus(before, s, c)
      ensures Describes(before + [s])
    {
      hide Bogus, BandOk, LevelAt;
      warned := false;
      for ci := 0 to |s.comps|
        invariant coefBits.Length0 == n && coefBits.Length1 == DCTSIZE2
        invariant warned <==> exists i :: 0 <= i < ci && Bogus(before, s, s.comps[i])
        invariant forall c, k :: 0 <= c < n && 0 <= k < DCTSIZE2 ==>
          coefBits[c, k] == if c in s.comps[..ci] && s.ss <= k <= s.se then s.al else LevelAt(before, c, k)
      {
        assert s.comps[ci] !in s.comps[..ci];
        var w := NoteComponent(s, s.comps[ci], before);
        warned := warned || w;
        assert s.comps[..ci + 1] == s.comps[..ci] + [s.comps[ci]];
      }
      assert s.comps[..|s.comps|] == s.comps;
      forall c, k | 0 <= c < n && 0 <= k < DCTSIZE2 ensures coefBits[c, k] == LevelAt(before + [s], c, k) {
        LevelSnoc(before, s, c, k);
      }
    }
  }

  /** What validate_script accepts draws no warning. */
  lemma InOrderIsExpected(n: nat, before: Script, s: ScanInfo)
    requires ProgressiveScanOk(n, before, s)
    ensures forall c :: c in s.comps ==> !Bogus(before, s, c)
  {
    hide LevelAt;
    forall c | c in s.comps ensures !Bogus(before, s, c) {
      assert ContinuesFrom(before, s, c);
      forall k | s.ss <= k <= s.se ensures !Unexpected(before, s, c, k) {
        assert StepOk(LevelAt(before, c, k), s.ah, s.al);
      }
    }
  }

  /**
   * The converse fails only where the decoder does not look: a first scan of coefficients that have been sent
   * completely already, and the Al of a refinement (which start_pass checks as an error).
   */
  lemma ExpectedIsInOrder(n: nat, before: Script, s: ScanInfo)
    requires ComponentsOk(n, s) && BandOk(s)
    ensures ProgressiveScanOk(n, before, s) <==>
            && (forall c :: c in s.comps ==> !Bogus(before, s, c))
            && (s.ah > 0 ==> s.al == s.ah - 1)
            && (s.ah == 0 ==> forall c, k :: c in s.comps && s.ss <= k <= s.se ==> LevelAt(before, c, k) != 0)
  {
    hide LevelAt;
    if ProgressiveScanOk(n, before, s) {
      InOrderIsExpected(n, before, s);
      assert s.comps[0] in s.comps;
      assert ContinuesFrom(before, s, s.comps[0]) && StepOk(LevelAt(before, s.comps[0], s.ss), s.ah, s.al);
      forall c, k | c in s.comps && s.ss <= k <= s.se && s.ah == 0 ensures LevelAt(before, c, k) != 0 {
        assert ContinuesFrom(before, s, c) && StepOk(LevelAt(before, c, k), s.ah, s.al);
      }
    } else {
      var c :| c in s.comps && !ContinuesFrom(before, s, c);
      if forall k :: s.ss <= k <= s.se ==> StepOk(LevelAt(before, c, k), s.ah, s.al) {
        assert Bogus(before, s, c);
      } else {
        var k :| s.ss <= k <= s.se && !StepOk(LevelAt(before, c, k), s.ah, s.al);
        assert Unexpected(before, s, c, k) || s.ah == LevelAt(before, c, k) || LevelAt(before, c, k) < 0;
      }
    }
  }
}
