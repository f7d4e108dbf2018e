/**
 * The statistics areas both coders keep: one byte per bin, one area per table in use, and the
 * bin for fixed probability.
 */
module ArithStats {
  import opened Bits
  import opened Aritab
  import opened ArithSpec

  const NUM_ARITH_TBLS := 16
  const DC_STAT_BINS := 64
  const AC_STAT_BINS := 256

  class Statistics {
    const dcStats: array2<Byte>      // dc_stats[tbl][bin]
    const acStats: array2<Byte>      // ac_stats[tbl][bin]
    const fixedBin: array<Byte>
    var dcTables: set<nat>           // tables zeroed by start_pass for this scan
    var acTables: set<nat>

    /** The module initializers: no statistics area is in use yet. */
    constructor ()
      ensures fresh(Repr()) && Agrees(map[]) && dcTables == {} && acTables == {}
    {
      dcStats := new Byte[NUM_ARITH_TBLS, DC_STAT_BINS];
      acStats := new Byte[NUM_ARITH_TBLS, AC_STAT_BINS];
      fixedBin := new Byte[4];
      dcTables, acTables := {}, {};
      new;
      fixedBin[0] := 113;
    }

    ghost function Repr(): set<object> {
      {this, dcStats, acStats, fixedBin}
    }

    ghost predicate Shapes() {
      && dcStats.Length0 == acStats.Length0 == NUM_ARITH_TBLS
      && dcStats.Length1 == DC_STAT_BINS && acStats.Length1 == AC_STAT_BINS
      && fixedBin.Length == 4 && dcStats != acStats
    }

    /** The bins that start_pass has prepared for the current scan. */
    predicate Usable(st: BinId)
      reads this
    {
      match st
      case Dc(t, i) => t in dcTables && t < NUM_ARITH_TBLS && i < DC_STAT_BINS
      case Ac(t, i) => t in acTables && t < NUM_ARITH_TBLS && i < AC_STAT_BINS
      case Fixed => true
    }

    /** `*st`. */
    function Load(st: BinId): Byte
      requires Shapes() && Usable(st)
      reads this, dcStats, acStats, fixedBin
    {
      match st
      case Dc(t, i) => dcStats[t, i]
      case Ac(t, i) => acStats[t, i]
      case Fixed => fixedBin[0]
    }

    /** The areas hold the bins of an exact coder state. */
    ghost predicate Agrees(bins: Bins)
      reads this, dcStats, acStats, fixedBin
    {
      Shapes() && forall st :: Usable(st) ==> Load(st) == Get(bins, st)
    }

    lemma LoadAgrees(bins: Bins, st: BinId)
      requires Agrees(bins) && Usable(st)
      ensures Shapes() && Load(st) == Get(bins, st)
      ensures Agrees(bins[st := Get(bins, st)])
    {
    }

    /** `*st = v`. */
    method Store(st: BinId, v: Stat, ghost bins: Bins)
      requires Agrees(bins) && Usable(st)
      modifies dcStats, acStats, fixedBin
      ensures Agrees(bins[st := v])
    {
      match st
      case Dc(t, i) => dcStats[t, i] := v;
      case Ac(t, i) => acStats[t, i] := v;
      case Fixed => fixedBin[0] := v;
    }

    /** No statistics area belongs to the new scan yet; the fixed bin is kept. */
    method BeginTables(ghost bins: Bins)
      requires Agrees(bins) && Get(bins, Fixed) == 113
      modifies this
      ensures Agrees(map[]) && dcTables == {} && acTables == {}
    {
      LoadAgrees(bins, Fixed);
      dcTables, acTables := {}, {};
    }

    /** `MEMZERO(dc_stats[t], DC_STAT_BINS)`. */
    method ZeroDc(t: nat)
      requires Agrees(map[]) && t < NUM_ARITH_TBLS
      modifies dcStats, this
      ensures Agrees(map[]) && dcTables == old(dcTables) + {t} && acTables == old(acTables)
    {
      forall i | 0 <= i < DC_STAT_BINS {
        dcStats[t, i] := 0;
      }
      dcTables := dcTables + {t};
    }

    /** `MEMZERO(ac_stats[t], AC_STAT_BINS)`. */
    method ZeroAc(t: nat)
      requires Agrees(map[]) && t < NUM_ARITH_TBLS
      modifies acStats, this
      ensures Agrees(map[]) && acTables == old(acTables) + {t} && dcTables == old(dcTables)
    {
      forall i | 0 <= i < AC_STAT_BINS {
        acStats[t, i] := 0;
      }
      acTables := acTables + {t};
    }
  }
}
