/**
 * The multi-pass state machine of jcmaster.c and the loop of jcapimin.c that drives it: which passes are
 * made, in which order, and when the frame and scan headers are written.
 */
module PassControl {
  import opened Blocks
  import opened Progression

  /**
   * The settings of a compression run. An empty `scanInfo` stands for no script; `optimizeAsked` is the
   * application's optimize_coding.
   */
  datatype Config = Config(components: nat, scanInfo: Script, arith: bool, optimizeAsked: bool, transcode: bool)
  {
    /** A script has been validated. */
    predicate Validated() {
      components > 0 && (scanInfo != [] ==> ValidScript(components, scanInfo))
    }

    predicate Progressive() {
      scanInfo != [] && IsProgressive(scanInfo)
    }

    /** Default tables are assumed no good for progressive mode. */
    predicate Optimize() {
      optimizeAsked || (Progressive() && !arith)
    }

    /** What makes a run fail: statistics for the arithmetic coder, or too many components without a script. */
    predicate Doomed() {
      (arith && optimizeAsked) || (scanInfo == [] && components > MAX_COMPS_IN_SCAN)
    }

    function NumScans(): (n: nat)
      ensures n >= 1
    {
      if scanInfo == [] then 1 else |scanInfo|
    }

    function TotalPasses(): nat {
      if Optimize() then NumScans() * 2 else NumScans()
    }

    /** Scan k sends further bits of DC coefficients. */
    predicate DcRefinement(k: nat) {
      k < |scanInfo| && scanInfo[k].ss == 0 && scanInfo[k].ah != 0
    }

    /** Scan k gets a pass that only gathers statistics. */
    predicate HasOptPass(k: nat) {
      Optimize() && (!DcRefinement(k) || arith || (k == 0 && !transcode))
    }

    /** The coefficient controller's mode in the first pass, which gets the image, and in later ones. */
    function Mode(first: bool): CoefMode {
      if transcode || !first then CrankDest else if TotalPasses() > 1 then SaveAndPass else PassThru
    }
  }

  datatype CoefMode = PassThru | SaveAndPass | CrankDest

  datatype Event =
    | StartPass(gather: bool, scan: nat, mode: CoefMode)
    | FinishPass(gather: bool, scan: nat)
    | FrameHeader
    | ScanHeader(scan: nat)
    | FileTrailer

  // ----- What a run is supposed to do -----

  function OptPart(c: Config, k: nat): seq<Event> {
    if c.HasOptPass(k) then [StartPass(true, k, c.Mode(k == 0)), FinishPass(true, k)] else []
  }

  function OutputStart(c: Config, k: nat): Event {
    StartPass(false, k, c.Mode(k == 0 && !c.HasOptPass(0)))
  }

  function Headers(k: nat): seq<Event> {
    (if k == 0 then [FrameHeader] else []) + [ScanHeader(k)]
  }

  function ScanPart(c: Config, k: nat): seq<Event> {
    OptPart(c, k) + [OutputStart(c, k)] + Headers(k) + [FinishPass(false, k)]
  }

  /** The first k scans. */
  function Run(c: Config, k: nat): seq<Event> {
    if k == 0 then [] else Run(c, k - 1) + ScanPart(c, k - 1)
  }

  // ----- The machine -----

  datatype PassType = MainPass | HuffOptPass | OutputPass

  class Master {
    const cfg: Config
    var optimizeCoding: bool
    const totalPasses: nat
    var passType: PassType
    var passNumber: nat
    var scanNumber: nat
    var callPassStartup: bool
    var isLastPass: bool
    var selected: nat                // the scan whose parameters have been selected
    var gathering: bool              // what the entropy coder was started for

    ghost var trace: seq<Event>

    /** jinit_c_master_control. */
    constructor (cfg: Config)
      requires cfg.Validated()
      ensures this.cfg == cfg && Between() && trace == [] && !isLastPass && passNumber == scanNumber == 0
    {
      this.cfg := cfg;
      var progressiveMode := cfg.scanInfo != [] && IsProgressive(cfg.scanInfo);
      var optimize := cfg.optimizeAsked;
      if progressiveMode && !cfg.arith {
        optimize := true;
      }
      optimizeCoding := optimize;
      if cfg.transcode {
        // no main pass in transcoding
        passType := if optimize then HuffOptPass else OutputPass;
      } else {
        passType := MainPass;
      }
      var numScans := if cfg.scanInfo == [] then 1 else |cfg.scanInfo|;
      totalPasses := if optimize then numScans * 2 else numScans;
      passNumber, scanNumber, callPassStartup, isLastPass, selected, gathering, trace := 0, 0, false, false, 0, false, [];
    }

    ghost predicate Settled()
      reads this
    {
      cfg.Validated() && optimizeCoding == cfg.Optimize() && totalPasses == cfg.TotalPasses() && !callPassStartup
    }

    /** No pass is running. */
    ghost predicate Between()
      reads this
    {
      && Settled() && (passNumber > 0 ==> !cfg.Doomed())
      && match passType
         case MainPass => !cfg.transcode && scanNumber == passNumber == 0 && trace == []
         case HuffOptPass => optimizeCoding && passNumber == 2 * scanNumber && trace == Run(cfg, scanNumber) && (scanNumber == 0 ==> cfg.transcode)
         case OutputPass =>
           if optimizeCoding then
             passNumber == 2 * scanNumber + 1 && selected == scanNumber && trace == Run(cfg, scanNumber) + OptPart(cfg, scanNumber)
             && cfg.HasOptPass(scanNumber)
           else
             passNumber == scanNumber && trace == Run(cfg, scanNumber) && (scanNumber == 0 ==> cfg.transcode)
    }

    /** A pass is running, and its headers have been written if it writes any. */
    ghost predicate Running()
      reads this
    {
      && Settled() && !cfg.Doomed()
      && selected == scanNumber < cfg.NumScans() && isLastPass == (passNumber == totalPasses - 1)
      && if gathering then
           && optimizeCoding && cfg.HasOptPass(scanNumber) && passNumber == 2 * scanNumber
           && (passType == MainPass ==> scanNumber == 0) && passType != OutputPass
           && trace == Run(cfg, scanNumber) + [StartPass(true, scanNumber, cfg.Mode(scanNumber == 0))]
         else
           && passNumber == (if optimizeCoding then 2 * scanNumber + 1 else scanNumber)
           && (passType == MainPass ==> !optimizeCoding && scanNumber == 0) && passType != HuffOptPass
           && trace == Run(cfg, scanNumber) + OptPart(cfg, scanNumber) + [OutputStart(cfg, scanNumber)] + Headers(scanNumber)
    }

    /** The first pass writes the headers when the first scanlines arrive. */
    ghost predicate AwaitsStartup()
      reads this
    {
      && cfg.Validated() && !cfg.Doomed() && optimizeCoding == cfg.Optimize() && totalPasses == cfg.TotalPasses() && callPassStartup
      && !optimizeCoding && !cfg.transcode && passType == MainPass && selected == scanNumber == passNumber == 0 && !gathering
      && isLastPass == (totalPasses == 1) && trace == [OutputStart(cfg, 0)]
    }

    /** select_scan_parameters; false stands for the error exit on too many components. */
    method SelectScanParameters() returns (ok: bool)
      modifies this`selected
      ensures ok <==> cfg.scanInfo != [] || cfg.components <= MAX_COMPS_IN_SCAN
      ensures ok ==> selected == scanNumber
    {
      if cfg.scanInfo == [] && cfg.components > MAX_COMPS_IN_SCAN {
        return false;
      }
      selected := scanNumber;
      ok := true;
    }

    /** The entropy coder's and the coefficient controller's start_pass; the arithmetic coder refuses to gather statistics. */
    method StartModules(gather: bool, mode: CoefMode) returns (ok: bool)
      modifies this`gathering, this`trace
      ensures ok <==> !(gather && cfg.arith)
      ensures ok ==> gathering == gather && trace == old(trace) + [StartPass(gather, selected, mode)]
    {
      if gather && cfg.arith {
        return false;
      }
      gathering := gather;
      trace := trace + [StartPass(gather, selected, mode)];
      ok := true;
    }

    method WriteFrameHeader()
      modifies this`trace
      ensures trace == old(trace) + [FrameHeader]
    {
      trace := trace + [FrameHeader];
    }

    method WriteScanHeader()
      modifies this`trace
      ensures trace == old(trace) + [ScanHeader(selected)]
    {
      trace := trace + [ScanHeader(selected)];
    }

    /** The branch for the initial pass. */
    method PrepareMain() returns (ok: bool)
      requires Between() && passType == MainPass
      modifies this
      ensures ok <==> !cfg.Doomed()
      ensures passType == old(passType) && passNumber == old(passNumber) && scanNumber == old(scanNumber) && optimizeCoding == old(optimizeCoding)
      ensures ok ==> selected == 0 && gathering == optimizeCoding && callPassStartup == !optimizeCoding
                     && trace == [if optimizeCoding then StartPass(true, 0, cfg.Mode(true)) else OutputStart(cfg, 0)]
    {
      ok := SelectScanParameters();
      if ok {
        ok := StartModules(optimizeCoding, if totalPasses > 1 then SaveAndPass else PassThru);
        // with optimization there is no immediate output: the headers are postponed to the output pass
        callPassStartup := !optimizeCoding;
      }
    }

    /** The branch for an output pass. */
    method PrepareOutput() returns (ok: bool)
      requires cfg.Validated() && optimizeCoding == cfg.Optimize() && totalPasses == cfg.TotalPasses() && passType == OutputPass
      requires optimizeCoding ==> selected == scanNumber
      modifies this`selected, this`gathering, this`trace, this`callPassStartup
      ensures ok <==> optimizeCoding || cfg.scanInfo != [] || cfg.components <= MAX_COMPS_IN_SCAN
      ensures ok ==> selected == scanNumber && !gathering && !callPassStartup
                     && trace == old(trace) + [StartPass(false, scanNumber, CrankDest)] + Headers(scanNumber)
    {
      ok := true;
      // no need to repeat per-scan setup if a prior optimization pass did it
      if !optimizeCoding {
        ok := SelectScanParameters();
        if !ok {
          return;
        }
      }
      ok := StartModules(false, CrankDest);
      if scanNumber == 0 {
        WriteFrameHeader();
      }
      WriteScanHeader();
      callPassStartup := false;
    }

    /** The branch for an optimization pass after the first pass; `skipped` if the scan needs none. */
    method PrepareOpt() returns (ok: bool, skipped: bool)
      requires Between() && passType == HuffOptPass && passNumber < totalPasses
      modifies this
      ensures scanNumber == old(scanNumber) && optimizeCoding == old(optimizeCoding) && !callPassStartup
      ensures ok <==> !cfg.Doomed()
      ensures ok ==> selected == scanNumber && skipped == !cfg.HasOptPass(scanNumber) && (!skipped ==> gathering)
      ensures ok && skipped ==> passType == OutputPass && passNumber == old(passNumber) + 1 && trace == old(trace)
      ensures ok && !skipped ==> passType == HuffOptPass && passNumber == old(passNumber)
                                 && trace == old(trace) + [StartPass(true, scanNumber, CrankDest)]
    {
      skipped := false;
      ok := SelectScanParameters();
      if !ok {
        return;
      }
      var isDcRefinement := scanNumber < |cfg.scanInfo| && cfg.scanInfo[scanNumber].ss == 0 && cfg.scanInfo[scanNumber].ah != 0;
      if !isDcRefinement || cfg.arith {
        ok := StartModules(true, CrankDest);
        callPassStartup := false;
      } else {
        // DC refinement scans need no Huffman table: skip the optimization pass for them
        passType := OutputPass;
        passNumber := passNumber + 1;
        skipped := true;
      }
    }

    /** prepare_for_pass; false stands for an error exit. */
    method PrepareForPass() returns (ok: bool)
      requires Between() && passNumber < totalPasses
      modifies this
      ensures ok <==> !cfg.Doomed()
      ensures ok ==> if old(passType) == MainPass && !old(optimizeCoding) then AwaitsStartup() else Running()
      ensures ok ==> passNumber >= old(passNumber) && (old(passType) == MainPass ==> passNumber == old(passNumber))
    {
      hide Config.Validated;
      ghost var k, start := scanNumber, trace;
      match passType {
        case MainPass =>
          ok := PrepareMain();
          assert Run(cfg, 0) == [];
        case HuffOptPass =>
          var skipped;
          ok, skipped := PrepareOpt();
          if ok && skipped {
            ok := PrepareOutput();
            assert start + [] == start;
          }
        case OutputPass =>
          ok := PrepareOutput();
          assert start == Run(cfg, k) + OptPart(cfg, k);
      }
      isLastPass := passNumber == totalPasses - 1;
    }

    /** pass_startup, called when the first scanlines arrive. */
    method PassStartup()
      requires AwaitsStartup()
      modifies this`callPassStartup, this`trace
      ensures Running()
    {
      callPassStartup := false;
      WriteFrameHeader();
      WriteScanHeader();
    }

    /** What the trace is after the end of the pass. */
    lemma FinishedPart(k: nat)
      requires Running() && k == scanNumber
      ensures var t := trace + [FinishPass(gathering, selected)];
              if gathering then t == Run(cfg, k) + OptPart(cfg, k) else t == Run(cfg, k + 1)
    {
      hide Config.Validated, Config.Doomed, Config.Mode, Config.TotalPasses;
      if !gathering {
        assert trace + [FinishPass(gathering, selected)] == Run(cfg, k) + ScanPart(cfg, k);
      }
    }

    /** finish_pass_master. */
    method FinishPassMaster()
      requires Running()
      modifies this
      ensures Between() && passNumber == old(passNumber) + 1 && isLastPass == old(isLastPass)
    {
      hide Config.Validated, Config.Doomed, Config.Mode, Config.TotalPasses, Config.HasOptPass;
      FinishedPart(scanNumber);
      hide Run, OptPart, ScanPart, OutputStart, Headers;
      trace := trace + [FinishPass(gathering, selected)];
      match passType {
        case MainPass =>
          passType := OutputPass;
          if !optimizeCoding {
            scanNumber := scanNumber + 1;
          }
        case HuffOptPass =>
          passType := OutputPass;
        case OutputPass =>
          if optimizeCoding {
            passType := HuffOptPass;
          }
          scanNumber := scanNumber + 1;
      }
      passNumber := passNumber + 1;
    }

    /** jpeg_finish_compress: the rest of the first pass, if there was one, all remaining passes, and the trailer. */
    method FinishCompress() returns (ok: bool)
      requires if cfg.transcode then Between() && passNumber == 0 && !isLastPass else Running() && passNumber == 0
      modifies this
      ensures ok <==> !cfg.Doomed()
      ensures ok ==> trace == Run(cfg, cfg.NumScans()) + [FileTrailer] && passNumber == totalPasses && scanNumber == cfg.NumScans()
    {
      hide Config.Doomed, Config.Validated, Config.HasOptPass, Config.Mode;
      if !cfg.transcode {
        FinishPassMaster();
      }
      while !isLastPass
        invariant Between() && passNumber <= totalPasses && (isLastPass <==> passNumber == totalPasses)
        decreases totalPasses - passNumber
      {
        ok := PrepareForPass();
        if !ok {
          return;
        }
        FinishPassMaster();
      }
      trace := trace + [FileTrailer];
      ok := true;
    }
  }

  /** A whole run of the compressor; `calls` is the number of jpeg_write_scanlines calls that feed the image. */
  method Compress(cfg: Config, calls: nat) returns (ok: bool, m: Master)
    requires cfg.Validated() && !cfg.transcode && calls > 0
    ensures m.cfg == cfg && fresh(m) && (ok <==> !cfg.Doomed())
    ensures ok ==> m.trace == Run(cfg, cfg.NumScans()) + [FileTrailer] && m.passNumber == m.totalPasses
  {
    m := new Master(cfg);
    ok := m.PrepareForPass();
    if !ok {
      return;
    }
    for i := 0 to calls
      invariant m.passNumber == 0 && if i == 0 && !m.optimizeCoding then m.AwaitsStartup() else m.Running()
    {
      if m.callPassStartup {
        m.PassStartup();
      }
    }
    ok := m.FinishCompress();
  }

  /** A whole run of the transcoder. */
  method Transcode(cfg: Config) returns (ok: bool, m: Master)
    requires cfg.Validated() && cfg.transcode
    ensures m.cfg == cfg && fresh(m) && (ok <==> !cfg.Doomed())
    ensures ok ==> m.trace == Run(cfg, cfg.NumScans()) + [FileTrailer] && m.passNumber == m.totalPasses
  {
    m := new Master(cfg);
    ok := m.FinishCompress();
  }

  // ----- What follows for every run -----

  predicate IsHeader(e: Event) {
    e == FrameHeader || e.ScanHeader?
  }

  function HeadersIn(t: seq<Event>): seq<Event> {
    if t == [] then []
    else HeadersIn(t[..|t| - 1]) + if IsHeader(t[|t| - 1]) then [t[|t| - 1]] else []
  }

  lemma {:induction false} HeadersConcat(a: seq<Event>, b: seq<Event>)
    ensures HeadersIn(a + b) == HeadersIn(a) + HeadersIn(b)
  {
    if b == [] {
      assert a + b == a;
    } else {
      var n := |b| - 1;
      HeadersConcat(a, b[..n]);
      assert (a + b)[..|a| + n] == a + b[..n];
    }
  }

  lemma HeadersSnoc(t: seq<Event>, e: Event)
    ensures HeadersIn(t + [e]) == HeadersIn(t) + if IsHeader(e) then [e] else []
  {
    assert (t + [e])[..|t|] == t;
  }

  lemma OneEvent(e: Event)
    ensures HeadersIn([e]) == if IsHeader(e) then [e] else []
  {
    HeadersSnoc([], e);
    assert [] + [e] == [e];
  }

  lemma OptPartHeaders(c: Config, k: nat)
    ensures HeadersIn(OptPart(c, k)) == []
  {
    if c.HasOptPass(k) {
      var start, finish := StartPass(true, k, c.Mode(k == 0)), FinishPass(true, k);
      OneEvent(start);
      HeadersSnoc([start], finish);
      assert OptPart(c, k) == [start] + [finish];
    }
  }

  lemma HeadersAreHeaders(k: nat)
    ensures HeadersIn(Headers(k)) == Headers(k)
  {
    OneEvent(ScanHeader(k));
    if k == 0 {
      OneEvent(FrameHeader);
      HeadersConcat([FrameHeader], [ScanHeader(k)]);
    } else {
      assert Headers(k) == [ScanHeader(k)];
    }
  }

  lemma ScanPartHeaders(c: Config, k: nat)
    ensures HeadersIn(ScanPart(c, k)) == Headers(k)
  {
    hide HeadersIn, OptPart, OutputStart, Headers;
    var opt, start, finish := OptPart(c, k), [OutputStart(c, k)], [FinishPass(false, k)];
    OptPartHeaders(c, k);
    HeadersAreHeaders(k);
    OneEvent(FinishPass(false, k));
    OutputStarts(c, k);
    HeadersConcat(opt, start);
    HeadersConcat(opt + start, Headers(k));
    HeadersConcat(opt + start + Headers(k), finish);
  }

  lemma OutputStarts(c: Config, k: nat)
    ensures HeadersIn([OutputStart(c, k)]) == []
  {
    OneEvent(OutputStart(c, k));
  }

  /** The frame header is written once, before all scan headers, and each scan header once, in script order. */
  lemma {:induction false} HeadersOnceInOrder(c: Config, n: nat)
    requires n > 0
    ensures HeadersIn(Run(c, n)) == [FrameHeader] + seq(n, k requires 0 <= k < n => ScanHeader(k))
    decreases n
  {
    hide ScanPart;
    ScanPartHeaders(c, n - 1);
    HeadersConcat(Run(c, n - 1), ScanPart(c, n - 1));
    if n == 1 {
      assert HeadersIn([]) == [];
      assert Headers(0) == [FrameHeader] + seq(1, k requires 0 <= k < 1 => ScanHeader(k));
    } else {
      HeadersOnceInOrder(c, n - 1);
    }
  }

  /** Only the very first pass can get the image; it saves the coefficients exactly if a later pass needs them. */
  lemma {:induction false} LaterPassesReadTheBuffer(c: Config, n: nat)
    ensures n > 0 ==> Run(c, n) != [] && Run(c, n)[0].StartPass? && Run(c, n)[0].mode == c.Mode(true)
    ensures forall i :: 0 < i < |Run(c, n)| && Run(c, n)[i].StartPass? ==> Run(c, n)[i].mode == CrankDest
    decreases n
  {
    hide Config.HasOptPass;
    if n > 0 {
      LaterPassesReadTheBuffer(c, n - 1);
      var part := ScanPart(c, n - 1);
      assert part[0].StartPass? && part[0].mode == c.Mode(n == 1);
      assert forall i :: 0 < i < |part| && part[i].StartPass? ==> part[i].mode == CrankDest;
    }
  }

  /** Run number i starts a pass. */
  predicate Starts(t: seq<Event>, i: nat) {
    i < |t| && t[i].StartPass?
  }

  /** There is another pass behind the first if there are more scans, or statistics for the first one. */
  lemma AnotherPass(c: Config, n: nat)
    requires n > 0
    ensures (exists i :: i > 0 && Starts(Run(c, n), i)) <==> n > 1 || c.HasOptPass(0)
  {
    hide Config.HasOptPass;
    var front, p := Run(c, n - 1), ScanPart(c, n - 1);
    assert Starts(p, 0);
    if n > 1 {
      LaterPassesReadTheBuffer(c, n - 1);
      assert Starts(Run(c, n), |front|);
    } else {
      assert Run(c, 1) == p;
      if c.HasOptPass(0) {
        assert Starts(p, 2);
      } else {
        assert p == [OutputStart(c, 0), FrameHeader, ScanHeader(0), FinishPass(false, 0)];
      }
    }
  }

  /**
   * The pass that gets the image stores the coefficients exactly if another pass follows, and passes them
   * through exactly if none does; every later pass, and in transcoding every pass, reads what is stored.
   */
  lemma ImageStoredIfNeeded(c: Config)
    requires c.Validated()
    ensures var t := Run(c, c.NumScans());
            && Starts(t, 0)
            && (!c.transcode ==> (t[0].mode == SaveAndPass <==> exists i :: i > 0 && Starts(t, i)))
            && (!c.transcode ==> (t[0].mode == PassThru <==> !exists i :: i > 0 && Starts(t, i)))
            && (c.transcode ==> t[0].mode == CrankDest)
            && forall i :: i > 0 && Starts(t, i) ==> t[i].mode == CrankDest
  {
    hide Config.Validated, Run;
    LaterPassesReadTheBuffer(c, c.NumScans());
    if !c.transcode {
      AnotherPass(c, c.NumScans());
    }
  }

  /** What comes behind event i of a run. */
  predicate Continued(t: seq<Event>, i: nat)
    requires i < |t|
  {
    match t[i]
    case StartPass(true, k, _) => i + 2 < |t| && t[i + 1] == FinishPass(true, k) && t[i + 2].StartPass? && !t[i + 2].gather && t[i + 2].scan == k
    case StartPass(false, k, _) => i + 1 < |t| && t[i + 1] == if k == 0 then FrameHeader else ScanHeader(k)
    case FrameHeader => i + 1 < |t| && t[i + 1] == ScanHeader(0)
    case ScanHeader(k) => i + 1 < |t| && t[i + 1] == FinishPass(false, k)
    case FinishPass(true, k) => i + 1 < |t|
    case FinishPass(false, k) => i + 1 == |t| || (t[i + 1].StartPass? && t[i + 1].scan == k + 1)
    case FileTrailer => false
  }

  /** From the first event of scan k to the last event of scan n. */
  predicate Orderly(t: seq<Event>, k: nat, n: nat) {
    && t != [] && t[0].StartPass? && t[0].scan == k && t[|t| - 1] == FinishPass(false, n)
    && forall i: nat :: i < |t| ==> Continued(t, i)
  }

  lemma PartOrderly(c: Config, k: nat)
    ensures Orderly(ScanPart(c, k), k, k)
  {
    hide Config.HasOptPass, Config.Mode;
  }

  lemma OrderlyConcat(t: seq<Event>, k: nat, n: nat, p: seq<Event>, m: nat)
    requires Orderly(t, k, n) && Orderly(p, n + 1, m)
    ensures Orderly(t + p, k, m)
  {
    var u := t + p;
    forall i: nat | i < |u| ensures Continued(u, i) {
      if i < |t| {
        assert Continued(t, i);
      } else {
        assert Continued(p, i - |t|);
      }
    }
  }

  /**
   * The order of events: the statistics pass of a scan, if there is one, comes just before its output
   * pass, which writes the headers and is finished before anything of the next scan is begun.
   */
  lemma {:induction false} EventsInOrder(c: Config, n: nat)
    requires n > 0
    ensures Orderly(Run(c, n), 0, n - 1)
  {
    hide ScanPart, Orderly;
    PartOrderly(c, n - 1);
    if n > 1 {
      EventsInOrder(c, n - 1);
      OrderlyConcat(Run(c, n - 1), 0, n - 2, ScanPart(c, n - 1), n - 1);
    } else {
      assert Run(c, 1) == ScanPart(c, 0);
    }
  }

  /** A pass that only gathers statistics for scan k is in the run. */
  predicate Gathers(t: seq<Event>, k: nat, i: nat) {
    Starts(t, i) && t[i].gather && t[i].scan == k
  }

  lemma PartGathers(c: Config, n: nat, k: nat)
    ensures (exists i :: Gathers(ScanPart(c, n), k, i)) <==> k == n && c.HasOptPass(k)
  {
    hide Config.HasOptPass, Config.Mode;
    if k == n && c.HasOptPass(k) {
      assert Gathers(ScanPart(c, n), k, 0);
    }
  }

  lemma GathersConcat(t: seq<Event>, p: seq<Event>, k: nat)
    ensures (exists i :: Gathers(t + p, k, i)) <==> (exists i :: Gathers(t, k, i)) || (exists i :: Gathers(p, k, i))
  {
    if i: nat :| Gathers(t, k, i) {
      assert Gathers(t + p, k, i);
    } else if i: nat :| Gathers(p, k, i) {
      assert Gathers(t + p, k, |t| + i);
    } else if i: nat :| Gathers(t + p, k, i) {
      assert if i < |t| then Gathers(t, k, i) else Gathers(p, k, i - |t|);
      assert false;
    }
  }

  lemma {:induction false} GathersIff(c: Config, n: nat, k: nat)
    ensures (exists i :: Gathers(Run(c, n), k, i)) <==> k < n && c.HasOptPass(k)
    decreases n
  {
    hide Config.HasOptPass, ScanPart;
    if n > 0 {
      GathersIff(c, n - 1, k);
      PartGathers(c, n - 1, k);
      GathersConcat(Run(c, n - 1), ScanPart(c, n - 1), k);
      assert Run(c, n) == Run(c, n - 1) + ScanPart(c, n - 1);
    } else {
      assert Run(c, 0) == [];
    }
  }

  /**
   * With Huffman coding, a scan gets a statistics pass exactly if the application asked for optimization or
   * the script is progressive, and the scan is no refinement of DC coefficients, which needs no table.
   */
  lemma StatisticsPasses(c: Config, k: nat)
    requires c.Validated() && k < c.NumScans() && !c.arith
    ensures (exists i :: Gathers(Run(c, c.NumScans()), k, i))
        <==> (c.optimizeAsked || (c.scanInfo != [] && IsProgressive(c.scanInfo)))
             && !(c.scanInfo != [] && c.scanInfo[k].ss == 0 && c.scanInfo[k].ah > 0)
  {
    hide Run;
    GathersIff(c, c.NumScans(), k);
    OptPassIffNeeded(c, k);
  }

  /** A validated script never begins with a refinement. */
  lemma FirstScanIsFirst(n: nat, script: Script)
    requires ValidScript(n, script)
    ensures script[0].ah == 0
  {
    var s := script[0];
    assert script[..0] == [];
    if IsProgressive(script) {
      assert ProgressiveScanOk(n, script[..0], s);
      assert s.comps[0] in s.comps;
      assert StepOk(LevelAt([], s.comps[0], s.ss), s.ah, s.al);
    } else {
      assert SequentialScanOk(n, script[..0], s);
    }
  }

  /** With Huffman coding, a scan has a pass for its own statistics exactly if it needs a table. */
  lemma OptPassIffNeeded(c: Config, k: nat)
    requires c.Validated() && k < c.NumScans() && !c.arith
    ensures c.HasOptPass(k) <==> c.Optimize() && !c.DcRefinement(k)
  {
    if c.scanInfo != [] {
      FirstScanIsFirst(c.components, c.scanInfo);
    }
  }
}
