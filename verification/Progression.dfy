/**
 * Scan scripts: what a script must satisfy, stated by the history of each coefficient, and
 * validate_script of jcmaster.c, proved to accept exactly the scripts that satisfy it.
 */
module Progression {
  import opened Blocks

  const MAX_AH_AL := 10

  /** jpeg_scan_info; `comps` holds the first comps_in_scan entries of component_index. */
  datatype ScanInfo = ScanInfo(comps: seq<int>, ss: int, se: int, ah: int, al: int)

  type Script = seq<ScanInfo>

  /** The scan sends (bits of) coefficient k of component c. */
  predicate Covers(s: ScanInfo, c: int, k: int) {
    c in s.comps && s.ss <= k <= s.se
  }

  /** The last Al at which coefficient k of component c was sent, -1 if it was not. */
  function LevelAt(script: Script, c: int, k: int): int {
    if script == [] then -1
    else
      var last := script[|script| - 1];
      if Covers(last, c, k) then last.al else LevelAt(script[..|script| - 1], c, k)
  }

  /** Components exist, and appear in frame order. */
  predicate ComponentsOk(n: nat, s: ScanInfo) {
    && 0 < |s.comps| <= MAX_COMPS_IN_SCAN
    && (forall i :: 0 <= i < |s.comps| ==> 0 <= s.comps[i] < n)
    && (forall i, j :: 0 <= i < j < |s.comps| ==> s.comps[i] < s.comps[j])
  }

  /** The ranges of the progression parameters; DC and AC are never sent together. */
  predicate BandOk(s: ScanInfo) {
    && 0 <= s.ss <= s.se < DCTSIZE2 && 0 <= s.ah <= MAX_AH_AL && 0 <= s.al <= MAX_AH_AL
    && if s.ss == 0 then s.se == 0 else |s.comps| == 1
  }

  /** A first scan of a coefficient has Ah == 0, any later one sends exactly the next bit. */
  predicate StepOk(level: int, ah: int, al: int) {
    if level < 0 then ah == 0 else ah == level && al == ah - 1
  }

  /** Component c of the scan continues what the scans before it have sent. */
  predicate ContinuesFrom(before: Script, s: ScanInfo, c: int) {
    && (s.ss != 0 ==> LevelAt(before, c, 0) >= 0)
    && forall k :: s.ss <= k <= s.se ==> StepOk(LevelAt(before, c, k), s.ah, s.al)
  }

  predicate ProgressiveScanOk(n: nat, before: Script, s: ScanInfo) {
    ComponentsOk(n, s) && BandOk(s) && forall c :: c in s.comps ==> ContinuesFrom(before, s, c)
  }

  /** Every scan is in order given the scans before it. */
  predicate ProgressiveOk(n: nat, script: Script) {
    forall i :: 0 <= i < |script| ==> ProgressiveScanOk(n, script[..i], script[i])
  }

  predicate IsFullBand(s: ScanInfo) {
    s.ss == 0 && s.se == DCTSIZE2 - 1
  }

  predicate Sent(script: Script, c: int) {
    exists i :: 0 <= i < |script| && c in script[i].comps
  }

  predicate SequentialScanOk(n: nat, before: Script, s: ScanInfo) {
    && ComponentsOk(n, s) && IsFullBand(s) && s.ah == 0 && s.al == 0
    && forall c :: c in s.comps ==> !Sent(before, c)
  }

  predicate SequentialOk(n: nat, script: Script) {
    forall i :: 0 <= i < |script| ==> SequentialScanOk(n, script[..i], script[i])
  }

  /** Whether a script is progressive is decided by its first scan. */
  predicate IsProgressive(script: Script)
    requires script != []
  {
    !IsFullBand(script[0])
  }

  predicate ScansOk(n: nat, progressive: bool, script: Script) {
    if progressive then ProgressiveOk(n, script) else SequentialOk(n, script)
  }

  /** Every component has been sent: in a progressive script at least some of its DC bits. */
  predicate Complete(n: nat, progressive: bool, script: Script) {
    forall c :: 0 <= c < n ==> if progressive then LevelAt(script, c, 0) >= 0 else Sent(script, c)
  }

  predicate ValidScript(n: nat, script: Script) {
    script != [] && ScansOk(n, IsProgressive(script), script) && Complete(n, IsProgressive(script), script)
  }

  /** The outcome of validation: the number of the offending scan (0 for an empty script), counted from 1. */
  datatype Verdict = Valid(progressive: bool) | BadScan(scanno: nat) | MissingData

  // ----- Histories -----

  lemma LevelSnoc(script: Script, s: ScanInfo, c: int, k: int)
    ensures LevelAt(script + [s], c, k) == if Covers(s, c, k) then s.al else LevelAt(script, c, k)
  {
    assert (script + [s])[..|script|] == script;
  }

  lemma SentSnoc(script: Script, s: ScanInfo, c: int)
    ensures Sent(script + [s], c) <==> Sent(script, c) || c in s.comps
  {
    if Sent(script, c) {
      var i :| 0 <= i < |script| && c in script[i].comps;
      assert (script + [s])[i] == script[i];
    }
    if c in s.comps {
      assert (script + [s])[|script|] == s;
    }
  }

  lemma ScansOkSnoc(n: nat, progressive: bool, script: Script, s: ScanInfo)
    ensures ScansOk(n, progressive, script + [s]) <==>
            ScansOk(n, progressive, script)
            && if progressive then ProgressiveScanOk(n, script, s) else SequentialScanOk(n, script, s)
  {
    hide ProgressiveScanOk, SequentialScanOk;
    var all := script + [s];
    assert all[..|script|] == script && all[|script|] == s;
    assert forall i :: 0 <= i < |script| ==> all[..i] == script[..i] && all[i] == script[i];
  }

  // ----- The rules, scan against scan -----

  /** Scan i is the last one before scan j to send coefficient k of component c. */
  predicate LastBefore(script: Script, j: nat, c: int, k: int, i: nat) {
    && i < j <= |script| && c in script[i].comps && script[i].ss <= k <= script[i].se
    && forall m :: i < m < j ==> !(c in script[m].comps && script[m].ss <= k <= script[m].se)
  }

  /** No scan before scan j sends coefficient k of component c. */
  predicate NoneBefore(script: Script, j: nat, c: int, k: int) {
    j <= |script| && forall m :: 0 <= m < j ==> !(c in script[m].comps && script[m].ss <= k <= script[m].se)
  }

  lemma {:induction false} LevelIsLast(script: Script, j: nat, c: int, k: int) returns (i: nat)
    requires j <= |script|
    ensures LastBefore(script, j, c, k, i) || NoneBefore(script, j, c, k)
    ensures LastBefore(script, j, c, k, i) ==> LevelAt(script[..j], c, k) == script[i].al
    ensures NoneBefore(script, j, c, k) ==> LevelAt(script[..j], c, k) == -1
  {
    i := 0;
    if j > 0 {
      assert script[..j][..j - 1] == script[..j - 1];
      if Covers(script[j - 1], c, k) {
        i := j - 1;
      } else {
        i := LevelIsLast(script, j - 1, c, k);
      }
    }
  }

  /**
   * The rules that concern two scans: scan j sends a coefficient for the first time with Ah == 0, and
   * otherwise exactly one bit more than the last scan before it that sends the coefficient; AC coefficients
   * come after some bits of the component's DC coefficient.
   */
  ghost predicate FollowsRules(script: Script, j: nat, c: int, k: int)
    requires j < |script|
  {
    var s := script[j];
    c in s.comps && s.ss <= k <= s.se ==>
      && (NoneBefore(script, j, c, k) ==> s.ah == 0)
      && (forall i: nat :: LastBefore(script, j, c, k, i) ==> s.ah == script[i].al && s.al == script[i].al - 1)
      && (s.ss > 0 ==> !NoneBefore(script, j, c, 0))
  }

  lemma ScanRules(n: nat, script: Script, j: nat)
    requires j < |script| && forall i :: 0 <= i < |script| ==> ComponentsOk(n, script[i]) && BandOk(script[i])
    ensures ProgressiveScanOk(n, script[..j], script[j]) <==> forall c, k :: FollowsRules(script, j, c, k)
  {
    hide ComponentsOk;
    var s := script[j];
    forall c, k | c in s.comps && s.ss <= k <= s.se
      ensures FollowsRules(script, j, c, k) <==> (s.ss != 0 ==> LevelAt(script[..j], c, 0) >= 0) && StepOk(LevelAt(script[..j], c, k), s.ah, s.al)
    {
      CoefficientRules(script, j, c, k);
    }
    forall c | c in s.comps ensures ContinuesFrom(script[..j], s, c) <==> forall k :: FollowsRules(script, j, c, k) {
      assert FollowsRules(script, j, c, s.ss) ==> (s.ss != 0 ==> LevelAt(script[..j], c, 0) >= 0);
    }
  }

  lemma CoefficientRules(script: Script, j: nat, c: int, k: int)
    requires j < |script| && c in script[j].comps && script[j].ss <= k <= script[j].se && 0 <= script[j].ss
    requires forall i :: 0 <= i < |script| ==> script[i].al >= 0
    ensures FollowsRules(script, j, c, k)
        <==> (script[j].ss != 0 ==> LevelAt(script[..j], c, 0) >= 0) && StepOk(LevelAt(script[..j], c, k), script[j].ah, script[j].al)
  {
    var i := LevelIsLast(script, j, c, k);
    var d := LevelIsLast(script, j, c, 0);
    assert forall m: nat :: LastBefore(script, j, c, k, i) && LastBefore(script, j, c, k, m) ==> m == i;
    assert NoneBefore(script, j, c, k) ==> !LastBefore(script, j, c, k, i);
  }

  /** A script passes as progressive exactly if every scan is well formed and in order with the scans before it. */
  lemma ProgressiveRules(n: nat, script: Script)
    ensures ProgressiveOk(n, script)
        <==> (forall i :: 0 <= i < |script| ==> ComponentsOk(n, script[i]) && BandOk(script[i]))
             && forall j: nat, c, k :: j < |script| ==> FollowsRules(script, j, c, k)
  {
    hide FollowsRules, ContinuesFrom, ComponentsOk, BandOk;
    if ProgressiveOk(n, script) {
      forall i | 0 <= i < |script| ensures ComponentsOk(n, script[i]) && BandOk(script[i]) {
        assert ProgressiveScanOk(n, script[..i], script[i]);
      }
      forall j: nat, c, k | j < |script| ensures FollowsRules(script, j, c, k) {
        ScanRules(n, script, j);
      }
    } else if forall i :: 0 <= i < |script| ==> ComponentsOk(n, script[i]) && BandOk(script[i]) {
      var j: nat :| j < |script| && !ProgressiveScanOk(n, script[..j], script[j]);
      ScanRules(n, script, j);
    }
  }

  /** What a scan must satisfy by itself: up to four components in order, one if it sends AC coefficients. */
  predicate WellFormed(n: nat, s: ScanInfo) {
    && 1 <= |s.comps| <= 4 && (forall i :: 0 <= i < |s.comps| ==> 0 <= s.comps[i] < n)
    && (forall i, j :: 0 <= i < j < |s.comps| ==> s.comps[i] < s.comps[j])
    && 0 <= s.ah <= 10 && 0 <= s.al <= 10
    && ((s.ss == 0 && s.se == 0) || (1 <= s.ss <= s.se <= 63 && |s.comps| == 1))
  }

  lemma IsWellFormed(n: nat, s: ScanInfo)
    ensures ComponentsOk(n, s) && BandOk(s) <==> WellFormed(n, s)
  {
  }

  /** The rules of a sequential script: whole components, none of them twice. */
  predicate SequentialRules(n: nat, script: Script) {
    && (forall i :: 0 <= i < |script| ==> ComponentsOk(n, script[i]) && script[i].ss == 0 && script[i].se == 63 && script[i].ah == 0 && script[i].al == 0)
    && forall i, j, c :: 0 <= i < j < |script| && c in script[i].comps ==> c !in script[j].comps
  }

  lemma SequentialMeans(n: nat, script: Script)
    ensures SequentialOk(n, script) <==> SequentialRules(n, script)
  {
    hide ComponentsOk;
    if SequentialOk(n, script) {
      forall i | 0 <= i < |script| ensures ComponentsOk(n, script[i]) && IsFullBand(script[i]) && script[i].ah == 0 && script[i].al == 0 {
        assert SequentialScanOk(n, script[..i], script[i]);
      }
      forall i, j, c | 0 <= i < j < |script| && c in script[i].comps ensures c !in script[j].comps {
        assert SequentialScanOk(n, script[..j], script[j]);
        assert c in script[..j][i].comps;
      }
    }
  }

  /** Some scan sends (bits of) the DC coefficient of component c. */
  predicate DcSent(script: Script, c: int) {
    exists i :: 0 <= i < |script| && c in script[i].comps && script[i].ss == 0
  }

  lemma DcSentIff(script: Script, c: int)
    requires forall i :: 0 <= i < |script| ==> BandOk(script[i])
    ensures LevelAt(script, c, 0) >= 0 <==> DcSent(script, c)
  {
    var i := LevelIsLast(script, |script|, c, 0);
    assert script[..|script|] == script;
  }

  /**
   * A script whose first scan is not for whole blocks is valid if and only if every scan is well formed and
   * in order with the scans before it, and some bits of every DC coefficient are sent.
   */
  lemma ProgressiveScriptRules(n: nat, script: Script)
    requires script != [] && (script[0].ss != 0 || script[0].se != 63)
    ensures ValidScript(n, script) <==>
            && (forall i :: 0 <= i < |script| ==> WellFormed(n, script[i]))
            && (forall j: nat, c, k :: j < |script| ==> FollowsRules(script, j, c, k))
            && (forall c :: 0 <= c < n ==> DcSent(script, c))
  {
    hide FollowsRules, ProgressiveOk, ComponentsOk, BandOk, WellFormed, DcSent;
    forall i | 0 <= i < |script| ensures ComponentsOk(n, script[i]) && BandOk(script[i]) <==> WellFormed(n, script[i]) {
      IsWellFormed(n, script[i]);
    }
    ProgressiveRules(n, script);
    if forall i :: 0 <= i < |script| ==> WellFormed(n, script[i]) {
      forall c ensures LevelAt(script, c, 0) >= 0 <==> DcSent(script, c) {
        DcSentIff(script, c);
      }
    }
  }

  /** Any other script is valid if and only if all its scans are for whole blocks and send every component exactly once. */
  lemma SequentialScriptRules(n: nat, script: Script)
    requires script != [] && script[0].ss == 0 && script[0].se == 63
    ensures ValidScript(n, script) <==> SequentialRules(n, script) && forall c :: 0 <= c < n ==> Sent(script, c)
  {
    hide SequentialOk, SequentialRules, Sent;
    SequentialMeans(n, script);
  }

  /** A script with a bad scan stays bad. */
  lemma BadPrefix(n: nat, progressive: bool, script: Script, m: nat)
    requires m <= |script| && !ScansOk(n, progressive, script[..m])
    ensures !ScansOk(n, progressive, script)
  {
    hide ProgressiveScanOk, SequentialScanOk;
    assert forall i :: 0 <= i < m ==> script[..m][..i] == script[..i] && script[..m][i] == script[i];
  }

  // ----- validate_script -----

  class Validator {
    const n: nat                         // num_components
    const lastBitpos: array2<int>        // -1 until that coefficient has been seen; then last Al for it
    const componentSent: array<bool>
    var progressiveMode: bool

    constructor (n: nat)
      requires n <= MAX_COMPONENTS
      ensures this.n == n && Shape() && fresh(lastBitpos) && fresh(componentSent)
    {
      this.n := n;
      lastBitpos := new int[MAX_COMPONENTS, DCTSIZE2];
      componentSent := new bool[MAX_COMPONENTS];
      progressiveMode := false;
    }

    ghost predicate Shape() {
      n <= MAX_COMPONENTS == componentSent.Length == lastBitpos.Length0 && lastBitpos.Length1 == DCTSIZE2
    }

    /** The working arrays describe the scans seen so far. */
    ghost predicate Describes(before: Script)
      reads this, lastBitpos, componentSent
    {
      && Shape()
      && (progressiveMode ==> forall c, k :: 0 <= c < n && 0 <= k < DCTSIZE2 ==> lastBitpos[c, k] == LevelAt(before, c, k))
      && (!progressiveMode ==> forall c :: 0 <= c < n ==> componentSent[c] == Sent(before, c))
    }

    method ComponentsValid(s: ScanInfo) returns (ok: bool)
      ensures ok <==> ComponentsOk(n, s)
    {
      if |s.comps| == 0 || |s.comps| > MAX_COMPS_IN_SCAN {
        return false;
      }
      for ci := 0 to |s.comps|
        invariant forall i :: 0 <= i < ci ==> 0 <= s.comps[i] < n
        invariant forall i, j :: 0 <= i < j < ci ==> s.comps[i] < s.comps[j]
      {
        var thisi := s.comps[ci];
        if thisi < 0 || thisi >= n {
          return false;
        }
        // Components must appear in SOF order within each scan
        if ci > 0 && thisi <= s.comps[ci - 1] {
          return false;
        }
      }
      ok := true;
    }

    /** The coefficients of one component of a progressive scan. */
    method CheckBand(s: ScanInfo, c: int, ghost before: Script) returns (ok: bool)
      requires Shape() && 0 <= c < n && BandOk(s)
      requires forall k :: 0 <= k < DCTSIZE2 ==> lastBitpos[c, k] == LevelAt(before, c, k)
      modifies lastBitpos
      ensures ok <==> ContinuesFrom(before, s, c)
      ensures ok ==> forall k :: 0 <= k < DCTSIZE2 ==> lastBitpos[c, k] == if s.ss <= k <= s.se then s.al else LevelAt(before, c, k)
      ensures forall c', k :: 0 <= c' < MAX_COMPONENTS && 0 <= k < DCTSIZE2 && c' != c ==> lastBitpos[c', k] == old(lastBitpos[c', k])
    {
      if s.ss != 0 && lastBitpos[c, 0] < 0 {
        // AC without prior DC scan
        return false;
      }
      var coefi := s.ss;
      while coefi <= s.se
        invariant s.ss <= coefi <= s.se + 1
        invariant forall k :: s.ss <= k < coefi ==> StepOk(LevelAt(before, c, k), s.ah, s.al)
        invariant forall k :: 0 <= k < DCTSIZE2 ==> lastBitpos[c, k] == if s.ss <= k < coefi then s.al else LevelAt(before, c, k)
        invariant forall c', k :: 0 <= c' < MAX_COMPONENTS && 0 <= k < DCTSIZE2 && c' != c ==> lastBitpos[c', k] == old(lastBitpos[c', k])
      {
        if lastBitpos[c, coefi] < 0 {
          // first scan of this coefficient
          if s.ah != 0 {
            return false;
          }
        } else {
          // not first scan
          if s.ah != lastBitpos[c, coefi] || s.al != s.ah - 1 {
            return false;
          }
        }
        lastBitpos[c, coefi] := s.al;
        coefi := coefi + 1;
      }
      ok := true;
    }

    method CheckProgressive(s: ScanInfo, ghost before: Script) returns (ok: bool)
      requires Describes(before) && progressiveMode && ComponentsOk(n, s)
      modifies lastBitpos
      ensures ok <==> ProgressiveScanOk(n, before, s)
      ensures ok ==> Describes(before + [s])
    {
      if s.ss < 0 || s.ss >= DCTSIZE2 || s.se < s.ss || s.se >= DCTSIZE2
         || s.ah < 0 || s.ah > MAX_AH_AL || s.al < 0 || s.al > MAX_AH_AL {
        return false;
      }
      if s.ss == 0 {
        if s.se != 0 {
          // DC and AC together not OK
          return false;
        }
      } else {
        if |s.comps| != 1 {
          // AC scans must be for only one component
          return false;
        }
      }
      ok := CheckComponents(s, before);
    }

    method CheckComponents(s: ScanInfo, ghost before: Script) returns (ok: bool)
      requires Describes(before) && progressiveMode && ComponentsOk(n, s) && BandOk(s)
      modifies lastBitpos
      ensures ok <==> forall c :: c in s.comps ==> ContinuesFrom(before, s, c)
      ensures ok ==> Describes(before + [s])
    {
      hide ContinuesFrom;
      for ci := 0 to |s.comps|
        invariant forall i :: 0 <= i < ci ==> ContinuesFrom(before, s, s.comps[i])
        invariant forall c, k :: 0 <= c < n && 0 <= k < DCTSIZE2 ==>
          lastBitpos[c, k] == if c in s.comps[..ci] && s.ss <= k <= s.se then s.al else LevelAt(before, c, k)
      {
        assert s.comps[ci] !in s.comps[..ci];
        assert s.comps[ci] in s.comps;
        ok := CheckBand(s, s.comps[ci], before);
        if !ok {
          return;
        }
        assert s.comps[..ci + 1] == s.comps[..ci] + [s.comps[ci]];
      }
      ok := true;
      assert s.comps[..|s.comps|] == s.comps;
      forall c, k | 0 <= c < n && 0 <= k < DCTSIZE2 ensures lastBitpos[c, k] == LevelAt(before + [s], c, k) {
        LevelSnoc(before, s, c, k);
      }
    }

    method CheckSequential(s: ScanInfo, ghost before: Script) returns (ok: bool)
      requires Describes(before) && !progressiveMode && ComponentsOk(n, s)
      modifies componentSent
      ensures ok <==> SequentialScanOk(n, before, s)
      ensures ok ==> Describes(before + [s])
    {
      if s.ss != 0 || s.se != DCTSIZE2 - 1 || s.ah != 0 || s.al != 0 {
        return false;
      }
      // Make sure components are not sent twice
      for ci := 0 to |s.comps|
        invariant forall i :: 0 <= i < ci ==> !Sent(before, s.comps[i])
        invariant forall c :: 0 <= c < n ==> componentSent[c] == (Sent(before, c) || c in s.comps[..ci])
      {
        var thisi := s.comps[ci];
        assert s.comps[ci] !in s.comps[..ci];
        if componentSent[thisi] {
          return false;
        }
        componentSent[thisi] := true;
        assert s.comps[..ci + 1] == s.comps[..ci] + [thisi];
      }
      ok := true;
      assert s.comps[..|s.comps|] == s.comps;
      forall c | 0 <= c < n ensures componentSent[c] == Sent(before + [s], c) {
        SentSnoc(before, s, c);
      }
    }

    /** Decide on the mode and clear the working arrays. */
    method Begin(s: ScanInfo)
      requires Shape()
      modifies this, lastBitpos, componentSent
      ensures progressiveMode == !IsFullBand(s) && Describes([])
    {
      if s.ss != 0 || s.se != DCTSIZE2 - 1 {
        progressiveMode := true;
        forall c, k | 0 <= c < n && 0 <= k < DCTSIZE2 {
          lastBitpos[c, k] := -1;
        }
      } else {
        progressiveMode := false;
        forall c | 0 <= c < n {
          componentSent[c] := false;
        }
      }
    }

    /** Now verify that everything got sent. */
    method CheckComplete(ghost script: Script) returns (ok: bool)
      requires Describes(script)
      ensures ok <==> Complete(n, progressiveMode, script)
    {
      for ci := 0 to n
        invariant forall c :: 0 <= c < ci ==> if progressiveMode then LevelAt(script, c, 0) >= 0 else Sent(script, c)
      {
        if progressiveMode {
          if lastBitpos[ci, 0] < 0 {
            return false;
          }
        } else {
          if !componentSent[ci] {
            return false;
          }
        }
      }
      ok := true;
    }

    /** Accepts exactly the valid scripts; a rejection names the first scan that is not in order. */
    method ValidateScript(script: Script) returns (v: Verdict)
      requires Shape()
      modifies this, lastBitpos, componentSent
      ensures v.Valid? <==> ValidScript(n, script)
      ensures v.Valid? ==> v.progressive == progressiveMode == IsProgressive(script)
      ensures v.BadScan? && script != [] ==>
                && 1 <= v.scanno <= |script| && ScansOk(n, IsProgressive(script), script[..v.scanno - 1])
                && !ScansOk(n, IsProgressive(script), script[..v.scanno])
      ensures v.MissingData? ==> script != [] && ScansOk(n, IsProgressive(script), script) && !Complete(n, IsProgressive(script), script)
    {
      hide ProgressiveScanOk, SequentialScanOk, Complete, ScansOk;
      if script == [] {
        return BadScan(0);
      }
      Begin(script[0]);
      NothingYet(n, progressiveMode);
      assert script[..0] == [];
      for scanno := 1 to |script| + 1
        invariant progressiveMode == IsProgressive(script)
        invariant Describes(script[..scanno - 1]) && ScansOk(n, progressiveMode, script[..scanno - 1])
      {
        var s := script[scanno - 1];
        assert script[..scanno] == script[..scanno - 1] + [s];
        ScansOkSnoc(n, progressiveMode, script[..scanno - 1], s);
        var ok := CheckScan(s, script[..scanno - 1]);
        if !ok {
          BadPrefix(n, progressiveMode, script, scanno);
          return BadScan(scanno);
        }
      }
      assert script[..|script|] == script;
      var complete := CheckComplete(script);
      v := if complete then Valid(progressiveMode) else MissingData;
    }

    lemma NothingYet(n: nat, progressive: bool)
      ensures ScansOk(n, progressive, [])
    {
    }

    method CheckScan(s: ScanInfo, ghost before: Script) returns (ok: bool)
      requires Describes(before)
      modifies lastBitpos, componentSent
      ensures ok <==> if progressiveMode then ProgressiveScanOk(n, before, s) else SequentialScanOk(n, before, s)
      ensures ok ==> Describes(before + [s])
    {
      ok := ComponentsValid(s);
      if ok {
        if progressiveMode {
          ok := CheckProgressive(s, before);
        } else {
          ok := CheckSequential(s, before);
        }
      }
    }
  }
}
