/**
 * jpeg_simple_progression of jcparam.c: the script it writes through an advancing pointer, that it
 * fills exactly the number of scans it has declared, and that validate_script always accepts it.
 */
module SimpleProgression {
  import opened Blocks
  import opened Progression

  // ----- The script, and the methods that write it -----

  function OneScan(ci: int, ss: int, se: int, ah: int, al: int): ScanInfo {
    ScanInfo([ci], ss, se, ah, al)
  }

  /** One scan for each component. */
  function EachScan(n: nat, ss: int, se: int, ah: int, al: int): (s: Script)
    ensures |s| == n
  {
    seq(n, ci => OneScan(ci, ss, se, ah, al))
  }

  /** An interleaved DC scan if the components fit into one, else one for each. */
  function DcScans(n: nat, ah: int, al: int): Script {
    if n <= MAX_COMPS_IN_SCAN then [ScanInfo(seq(n, ci => ci), 0, 0, ah, al)] else EachScan(n, 0, 0, ah, al)
  }

  function YccScript(): Script {
    DcScans(3, 0, 1)
    + [OneScan(0, 1, 5, 0, 2), OneScan(2, 1, 63, 0, 1), OneScan(1, 1, 63, 0, 1), OneScan(0, 6, 63, 0, 2), OneScan(0, 1, 63, 2, 1)]
    + DcScans(3, 1, 0)
    + [OneScan(2, 1, 63, 1, 0), OneScan(1, 1, 63, 1, 0), OneScan(0, 1, 63, 1, 0)]
  }

  function GeneralScript(n: nat): Script {
    DcScans(n, 0, 1) + EachScan(n, 1, 5, 0, 2) + EachScan(n, 6, 63, 0, 2)
    + EachScan(n, 1, 63, 2, 1) + DcScans(n, 1, 0) + EachScan(n, 1, 63, 1, 0)
  }

  function SimpleScript(n: nat, ycc: bool): Script {
    if n == 3 && ycc then YccScript() else GeneralScript(n)
  }

  method FillAScan(space: array<ScanInfo>, at: nat, ci: int, ss: int, se: int, ah: int, al: int) returns (next: nat)
    requires at < space.Length
    modifies space
    ensures next == at + 1 && space[..next] == old(space[..at]) + [OneScan(ci, ss, se, ah, al)]
  {
    space[at] := ScanInfo([ci], ss, se, ah, al);
    next := at + 1;
  }

  method FillScans(space: array<ScanInfo>, at: nat, ncomps: nat, ss: int, se: int, ah: int, al: int) returns (next: nat)
    requires at + ncomps <= space.Length
    modifies space
    ensures next == at + ncomps && space[..next] == old(space[..at]) + EachScan(ncomps, ss, se, ah, al)
  {
    next := at;
    for ci := 0 to ncomps
      invariant next == at + ci
      invariant space[..next] == old(space[..at]) + EachScan(ncomps, ss, se, ah, al)[..ci]
    {
      space[next] := ScanInfo([ci], ss, se, ah, al);
      next := next + 1;
    }
  }

  method FillDcScans(space: array<ScanInfo>, at: nat, ncomps: nat, ah: int, al: int) returns (next: nat)
    requires at + |DcScans(ncomps, ah, al)| <= space.Length
    modifies space
    ensures next == at + |DcScans(ncomps, ah, al)| && space[..next] == old(space[..at]) + DcScans(ncomps, ah, al)
  {
    if ncomps <= MAX_COMPS_IN_SCAN {
      var index: seq<int> := [];
      for ci := 0 to ncomps
        invariant index == seq(ci, i => i)
      {
        index := index + [ci];
      }
      space[at] := ScanInfo(index, 0, 0, ah, al);
      next := at + 1;
    } else {
      next := FillScans(space, at, ncomps, 0, 0, ah, al);
    }
  }

  /** How many scans are declared; the code that fills them must match. */
  function DeclaredScans(n: nat, ycc: bool): nat {
    if n == 3 && ycc then 10 else if n > MAX_COMPS_IN_SCAN then 6 * n else 2 + 4 * n
  }

  lemma DeclaredIsLength(n: nat, ycc: bool)
    ensures |SimpleScript(n, ycc)| == DeclaredScans(n, ycc)
    ensures |DcScans(n, 0, 1)| == |DcScans(n, 1, 0)| == if n <= MAX_COMPS_IN_SCAN then 1 else n
  {
  }

  class ScriptOwner {
    var scriptSpace: array<ScanInfo>
    var numScans: nat

    constructor ()
      ensures fresh(scriptSpace)
    {
      scriptSpace := new ScanInfo[0];
      numScans := 0;
    }

    /** The script that scan_info and num_scans describe. */
    function ScanScript(): Script
      requires numScans <= scriptSpace.Length
      reads this, scriptSpace
    {
      scriptSpace[..numScans]
    }

    /** Space for the script: reused if it is large enough. */
    method Allocate(nscans: nat)
      modifies this`scriptSpace
      ensures nscans <= scriptSpace.Length
      ensures fresh(scriptSpace) || scriptSpace == old(scriptSpace)
    {
      if scriptSpace.Length < nscans {
        scriptSpace := new ScanInfo[if nscans > 10 then nscans else 10];
      }
    }

    method SimpleProgression(n: nat, ycc: bool)
      modifies this, scriptSpace
      ensures numScans == DeclaredScans(n, ycc) <= scriptSpace.Length && ScanScript() == SimpleScript(n, ycc)
    {
      var nscans;
      if n == 3 && ycc {
        nscans := 10;
      } else if n > MAX_COMPS_IN_SCAN {
        nscans := 6 * n;
      } else {
        nscans := 2 + 4 * n;
      }
      Allocate(nscans);
      numScans := nscans;
      DeclaredIsLength(n, ycc);
      var end;
      if n == 3 && ycc {
        end := FillYcc(scriptSpace);
      } else {
        end := FillGeneral(scriptSpace, n);
      }
    }

    static method FillYcc(space: array<ScanInfo>) returns (at: nat)
      requires 10 <= space.Length
      modifies space
      ensures at == 10 && space[..at] == YccScript()
    {
      hide DcScans;
      DeclaredIsLength(3, true);
      at := FillDcScans(space, 0, 3, 0, 1);
      at := FillAScan(space, at, 0, 1, 5, 0, 2);
      at := FillAScan(space, at, 2, 1, 63, 0, 1);
      at := FillAScan(space, at, 1, 1, 63, 0, 1);
      at := FillAScan(space, at, 0, 6, 63, 0, 2);
      at := FillAScan(space, at, 0, 1, 63, 2, 1);
      at := FillDcScans(space, at, 3, 1, 0);
      at := FillAScan(space, at, 2, 1, 63, 1, 0);
      at := FillAScan(space, at, 1, 1, 63, 1, 0);
      at := FillAScan(space, at, 0, 1, 63, 1, 0);
    }

    static method FillGeneral(space: array<ScanInfo>, n: nat) returns (at: nat)
      requires |GeneralScript(n)| <= space.Length
      modifies space
      ensures at == |GeneralScript(n)| && space[..at] == GeneralScript(n)
    {
      hide DcScans, EachScan;
      at := FillDcScans(space, 0, n, 0, 1);
      at := FillScans(space, at, n, 1, 5, 0, 2);
      at := FillScans(space, at, n, 6, 63, 0, 2);
      at := FillScans(space, at, n, 1, 63, 2, 1);
      at := FillDcScans(space, at, n, 1, 0);
      at := FillScans(space, at, n, 1, 63, 1, 0);
    }
  }

  // ----- The script is valid -----

  /** Scans that together send one band of every component once. */
  ghost predicate SendsEach(n: nat, add: Script, ss: int, se: int, ah: int, al: int) {
    && (forall j :: 0 <= j < |add| ==> ComponentsOk(n, add[j]) && BandOk(add[j]))
    && (forall j :: 0 <= j < |add| ==> add[j].ss == ss && add[j].se == se && add[j].ah == ah && add[j].al == al)
    && (forall i, j, c :: 0 <= i < j < |add| && c in add[i].comps ==> c !in add[j].comps)
  }

  lemma {:induction false} LevelsAdded(n: nat, script: Script, add: Script, ss: int, se: int, ah: int, al: int)
    requires SendsEach(n, add, ss, se, ah, al)
    ensures forall c, k :: LevelAt(script + add, c, k) == if Sent(add, c) && ss <= k <= se then al else LevelAt(script, c, k)
    decreases |add|
  {
    if add == [] {
      assert script + add == script;
    } else {
      var m := |add| - 1;
      var most, last := add[..m], add[m];
      assert add == most + [last];
      assert script + add == (script + most) + [last];
      LevelsAdded(n, script, most, ss, se, ah, al);
      forall c, k ensures LevelAt(script + add, c, k) == if Sent(add, c) && ss <= k <= se then al else LevelAt(script, c, k) {
        LevelSnoc(script + most, last, c, k);
        SentSnoc(most, last, c);
      }
    }
  }

  /** Whether every component of the scans can take the step. */
  predicate ReadyFor(n: nat, script: Script, ss: int, se: int, ah: int, al: int) {
    && (forall c, k :: 0 <= c < n && ss <= k <= se ==> StepOk(LevelAt(script, c, k), ah, al))
    && (forall c :: 0 <= c < n && ss != 0 ==> LevelAt(script, c, 0) >= 0)
  }

  lemma {:induction false} StageOk(n: nat, script: Script, add: Script, ss: int, se: int, ah: int, al: int)
    requires ProgressiveOk(n, script) && SendsEach(n, add, ss, se, ah, al) && ReadyFor(n, script, ss, se, ah, al)
    ensures ProgressiveOk(n, script + add)
    decreases |add|
  {
    if add == [] {
      assert script + add == script;
    } else {
      var m := |add| - 1;
      var most, last := add[..m], add[m];
      assert script + add == (script + most) + [last];
      StageOk(n, script, most, ss, se, ah, al);
      LevelsAdded(n, script, most, ss, se, ah, al);
      forall c | c in last.comps ensures ContinuesFrom(script + most, last, c) {
        assert !Sent(most, c);
      }
      ScansOkSnoc(n, true, script + most, last);
    }
  }

  lemma EachSends(n: nat, ss: int, se: int, ah: int, al: int)
    requires 0 <= ss <= se < DCTSIZE2 && 0 <= ah <= MAX_AH_AL && 0 <= al <= MAX_AH_AL && (ss == 0 ==> se == 0)
    ensures SendsEach(n, EachScan(n, ss, se, ah, al), ss, se, ah, al)
    ensures forall c :: Sent(EachScan(n, ss, se, ah, al), c) <==> 0 <= c < n
  {
    forall c | 0 <= c < n ensures Sent(EachScan(n, ss, se, ah, al), c) {
      assert c in EachScan(n, ss, se, ah, al)[c].comps;
    }
  }

  lemma DcSends(n: nat, ah: int, al: int)
    requires n > 0 && 0 <= ah <= MAX_AH_AL && 0 <= al <= MAX_AH_AL
    ensures SendsEach(n, DcScans(n, ah, al), 0, 0, ah, al)
    ensures forall c :: Sent(DcScans(n, ah, al), c) <==> 0 <= c < n
  {
    if n <= MAX_COMPS_IN_SCAN {
      forall c | 0 <= c < n ensures Sent(DcScans(n, ah, al), c) {
        assert DcScans(n, ah, al)[0].comps[c] == c;
      }
    } else {
      EachSends(n, 0, 0, ah, al);
    }
  }

  /** The levels while the general script is run: those of the DC term, of coefficients 1..5 and of 6..63. */
  predicate LevelsAre(n: nat, script: Script, dc: int, low: int, high: int) {
    forall c, k :: 0 <= c < n && 0 <= k < DCTSIZE2 ==>
      LevelAt(script, c, k) == if k == 0 then dc else if k <= 5 then low else high
  }

  /** One stage of the general script. */
  lemma Stage(n: nat, script: Script, add: Script, ss: int, se: int, ah: int, al: int, dc: int, low: int, high: int)
    requires ProgressiveOk(n, script) && LevelsAre(n, script, dc, low, high)
    requires SendsEach(n, add, ss, se, ah, al) && forall c :: Sent(add, c) <==> 0 <= c < n
    requires (ss == 0 && se == 0) || (dc >= 0 && ((ss == 1 && se == 5) || (ss == 6 && se == 63) || (ss == 1 && se == 63)))
    requires (ss == 0 ==> StepOk(dc, ah, al)) && (ss == 1 ==> StepOk(low, ah, al)) && (se == 63 ==> StepOk(high, ah, al))
    ensures ProgressiveOk(n, script + add)
    ensures LevelsAre(n, script + add, if ss == 0 then al else dc, if ss == 1 then al else low, if se == 63 then al else high)
  {
    StageOk(n, script, add, ss, se, ah, al);
    LevelsAdded(n, script, add, ss, se, ah, al);
  }

  lemma GeneralValid(n: nat)
    requires n > 0
    ensures ProgressiveOk(n, GeneralScript(n)) && LevelsAre(n, GeneralScript(n), 0, 0, 0)
  {
    hide ProgressiveOk, LevelsAre, SendsEach, EachScan, DcScans;
    StartOk(n);
    var s: Script := DcScans(n, 0, 1);
    DcSends(n, 0, 1);
    Stage(n, [], s, 0, 0, 0, 1, -1, -1, -1);
    assert [] + s == s;
    EachSends(n, 1, 5, 0, 2);
    Stage(n, s, EachScan(n, 1, 5, 0, 2), 1, 5, 0, 2, 1, -1, -1);
    s := s + EachScan(n, 1, 5, 0, 2);
    EachSends(n, 6, 63, 0, 2);
    Stage(n, s, EachScan(n, 6, 63, 0, 2), 6, 63, 0, 2, 1, 2, -1);
    s := s + EachScan(n, 6, 63, 0, 2);
    EachSends(n, 1, 63, 2, 1);
    Stage(n, s, EachScan(n, 1, 63, 2, 1), 1, 63, 2, 1, 1, 2, 2);
    s := s + EachScan(n, 1, 63, 2, 1);
    DcSends(n, 1, 0);
    Stage(n, s, DcScans(n, 1, 0), 0, 0, 1, 0, 1, 1, 1);
    s := s + DcScans(n, 1, 0);
    EachSends(n, 1, 63, 1, 0);
    Stage(n, s, EachScan(n, 1, 63, 1, 0), 1, 63, 1, 0, 0, 1, 1);
  }

  lemma StartOk(n: nat)
    ensures ProgressiveOk(n, []) && LevelsAre(n, [], -1, -1, -1)
  {
  }

  /** The levels while the YCbCr script is run; luma AC comes in two bands. */
  predicate YccLevels(script: Script, dc: int, low: int, high: int, cb: int, cr: int) {
    forall k :: 0 <= k < DCTSIZE2 ==>
      && LevelAt(script, 0, k) == (if k == 0 then dc else if k <= 5 then low else high)
      && LevelAt(script, 1, k) == (if k == 0 then dc else cb)
      && LevelAt(script, 2, k) == (if k == 0 then dc else cr)
  }

  /** One AC scan of the YCbCr script. */
  lemma YccStage(script: Script, c: int, ss: int, se: int, ah: int, al: int, dc: int, low: int, high: int, cb: int, cr: int)
    requires ProgressiveOk(3, script) && YccLevels(script, dc, low, high, cb, cr) && dc >= 0
    requires 0 <= c <= 2 && 0 <= ah <= MAX_AH_AL && 0 <= al <= MAX_AH_AL
    requires (ss == 1 && se == 63) || (c == 0 && ((ss == 1 && se == 5) || (ss == 6 && se == 63)))
    requires c == 0 && ss == 1 ==> StepOk(low, ah, al)
    requires c == 0 && se == 63 ==> StepOk(high, ah, al)
    requires (c == 1 ==> StepOk(cb, ah, al)) && (c == 2 ==> StepOk(cr, ah, al))
    ensures var s' := script + [OneScan(c, ss, se, ah, al)];
            && ProgressiveOk(3, s')
            && YccLevels(s', dc, if c == 0 && ss == 1 then al else low, if c == 0 && se == 63 then al else high,
                         if c == 1 then al else cb, if c == 2 then al else cr)
  {
    var s := OneScan(c, ss, se, ah, al);
    ScansOkSnoc(3, true, script, s);
    forall c', k ensures LevelAt(script + [s], c', k) == if Covers(s, c', k) then al else LevelAt(script, c', k) {
      LevelSnoc(script, s, c', k);
    }
  }

  /** A DC stage of the YCbCr script. */
  lemma YccDc(script: Script, ah: int, al: int, dc: int, low: int, high: int, cb: int, cr: int)
    requires ProgressiveOk(3, script) && YccLevels(script, dc, low, high, cb, cr)
    requires StepOk(dc, ah, al) && 0 <= ah <= MAX_AH_AL && 0 <= al <= MAX_AH_AL
    ensures ProgressiveOk(3, script + DcScans(3, ah, al)) && YccLevels(script + DcScans(3, ah, al), al, low, high, cb, cr)
  {
    hide DcScans;
    DcSends(3, ah, al);
    StageOk(3, script, DcScans(3, ah, al), 0, 0, ah, al);
    LevelsAdded(3, script, DcScans(3, ah, al), 0, 0, ah, al);
  }

  lemma YccFirstHalf() returns (s: Script)
    ensures s == DcScans(3, 0, 1)
              + [OneScan(0, 1, 5, 0, 2), OneScan(2, 1, 63, 0, 1), OneScan(1, 1, 63, 0, 1), OneScan(0, 6, 63, 0, 2), OneScan(0, 1, 63, 2, 1)]
    ensures ProgressiveOk(3, s) && YccLevels(s, 1, 1, 1, 1, 1)
  {
    hide ProgressiveOk, YccLevels, DcScans;
    StartYcc();
    s := [] + DcScans(3, 0, 1);
    YccDc([], 0, 1, -1, -1, -1, -1, -1);
    YccStage(s, 0, 1, 5, 0, 2, 1, -1, -1, -1, -1);
    s := s + [OneScan(0, 1, 5, 0, 2)];
    YccStage(s, 2, 1, 63, 0, 1, 1, 2, -1, -1, -1);
    s := s + [OneScan(2, 1, 63, 0, 1)];
    YccStage(s, 1, 1, 63, 0, 1, 1, 2, -1, -1, 1);
    s := s + [OneScan(1, 1, 63, 0, 1)];
    YccStage(s, 0, 6, 63, 0, 2, 1, 2, -1, 1, 1);
    s := s + [OneScan(0, 6, 63, 0, 2)];
    YccStage(s, 0, 1, 63, 2, 1, 1, 2, 2, 1, 1);
    s := s + [OneScan(0, 1, 63, 2, 1)];
  }

  lemma StartYcc()
    ensures ProgressiveOk(3, []) && YccLevels([], -1, -1, -1, -1, -1)
  {
  }

  lemma YccValid()
    ensures ProgressiveOk(3, YccScript()) && YccLevels(YccScript(), 0, 0, 0, 0, 0)
  {
    hide ProgressiveOk, YccLevels, DcScans;
    var s := YccFirstHalf();
    YccDc(s, 1, 0, 1, 1, 1, 1, 1);
    s := s + DcScans(3, 1, 0);
    YccStage(s, 2, 1, 63, 1, 0, 0, 1, 1, 1, 1);
    s := s + [OneScan(2, 1, 63, 1, 0)];
    YccStage(s, 1, 1, 63, 1, 0, 0, 1, 1, 1, 0);
    s := s + [OneScan(1, 1, 63, 1, 0)];
    YccStage(s, 0, 1, 63, 1, 0, 0, 1, 1, 0, 0);
    s := s + [OneScan(0, 1, 63, 1, 0)];
    assert s == YccScript();
  }

  /**
   * For every number of components the script is valid and progressive, and it sends every bit of
   * every coefficient.
   */
  lemma SimpleScriptValid(n: nat, ycc: bool)
    requires n > 0
    ensures ValidScript(n, SimpleScript(n, ycc)) && IsProgressive(SimpleScript(n, ycc))
    ensures forall c, k :: 0 <= c < n && 0 <= k < DCTSIZE2 ==> LevelAt(SimpleScript(n, ycc), c, k) == 0
  {
    hide ProgressiveOk;
    if n == 3 && ycc {
      YccValid();
      FirstScan(3, YccScript()[1..]);
      assert YccScript() == DcScans(3, 0, 1) + YccScript()[1..];
    } else {
      GeneralValid(n);
      var k := |DcScans(n, 0, 1)|;
      assert GeneralScript(n) == DcScans(n, 0, 1) + GeneralScript(n)[k..];
      FirstScan(n, GeneralScript(n)[k..]);
    }
  }

  lemma FirstScan(n: nat, rest: Script)
    requires n > 0
    ensures !IsFullBand((DcScans(n, 0, 1) + rest)[0])
  {
  }

  // ----- The scripts written out -----

  /** For YCbCr: ten scans that favour luminance, Cr before Cb. */
  lemma YccScans()
    ensures SimpleScript(3, true) == [
      ScanInfo([0, 1, 2], 0, 0, 0, 1), ScanInfo([0], 1, 5, 0, 2), ScanInfo([2], 1, 63, 0, 1), ScanInfo([1], 1, 63, 0, 1),
      ScanInfo([0], 6, 63, 0, 2), ScanInfo([0], 1, 63, 2, 1), ScanInfo([0, 1, 2], 0, 0, 1, 0), ScanInfo([2], 1, 63, 1, 0),
      ScanInfo([1], 1, 63, 1, 0), ScanInfo([0], 1, 63, 1, 0)]
  {
    assert seq(3, ci => ci) == [0, 1, 2];
  }

  /** For up to four components: two interleaved DC scans, and four AC scans of each component. */
  lemma FewComponents(n: nat, ycc: bool, c: nat)
    requires c < n <= 4 && !(n == 3 && ycc)
    ensures var s := SimpleScript(n, ycc);
            && |s| == 2 + 4 * n
            && s[0] == ScanInfo(seq(n, i => i), 0, 0, 0, 1) && s[1 + 3 * n] == ScanInfo(seq(n, i => i), 0, 0, 1, 0)
            && s[1 + c] == ScanInfo([c], 1, 5, 0, 2) && s[1 + n + c] == ScanInfo([c], 6, 63, 0, 2)
            && s[1 + 2 * n + c] == ScanInfo([c], 1, 63, 2, 1) && s[2 + 3 * n + c] == ScanInfo([c], 1, 63, 1, 0)
  {
  }

  /** For more components: six scans of each. */
  lemma ManyComponents(n: nat, ycc: bool, c: nat)
    requires c < n && n > 4
    ensures var s := SimpleScript(n, ycc);
            && |s| == 6 * n
            && s[c] == ScanInfo([c], 0, 0, 0, 1) && s[n + c] == ScanInfo([c], 1, 5, 0, 2) && s[2 * n + c] == ScanInfo([c], 6, 63, 0, 2)
            && s[3 * n + c] == ScanInfo([c], 1, 63, 2, 1) && s[4 * n + c] == ScanInfo([c], 0, 0, 1, 0) && s[5 * n + c] == ScanInfo([c], 1, 63, 1, 0)
  {
  }
}
