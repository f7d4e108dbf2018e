/**
 * How the rows of the probability estimation table are related: coding an MPS lowers the estimate, coding an
 * LPS raises it or exchanges the sense of the MPS. Checked row by row.
 */
module AritabEstimates {
  import opened Aritab

  /**
   * How row i is related to its successors: after a renormalized MPS the estimate is smaller, except where
   * it is already 1; after an LPS it is greater, or else the sense of the MPS is exchanged, and only then.
   */
  predicate Adapts(i: nat)
    requires i < TABLE_SIZE
  {
    var r := TableRow(i);
    && r.nextMps < TABLE_SIZE && r.nextLps < TABLE_SIZE
    && (TableRow(r.nextMps).qe < r.qe || (r.qe == 1 && r.nextMps == i))
    && (r.switchMps == 1 <==> TableRow(r.nextLps).qe <= r.qe)
  }

  predicate AllAdapt(i: nat, j: nat)
    requires j <= TABLE_SIZE
    decreases j - i
  {
    i >= j || (Adapts(i) && AllAdapt(i + 1, j))
  }

  lemma {:induction false} AdaptsWithin(a: nat, b: nat, i: nat)
    requires b <= TABLE_SIZE && AllAdapt(a, b) && a <= i < b
    ensures Adapts(i)
    decreases i - a
  {
    hide Adapts;
    if a < i {
      AdaptsWithin(a + 1, b, i);
    }
  }

  lemma RowsFrom0()
    ensures AllAdapt(0, 6)
  {
  }

  lemma RowsFrom6()
    ensures AllAdapt(6, 12)
  {
  }

  lemma RowsFrom12()
    ensures AllAdapt(12, 18)
  {
  }

  lemma RowsFrom18()
    ensures AllAdapt(18, 24)
  {
  }

  lemma RowsFrom24()
    ensures AllAdapt(24, 30)
  {
  }

  lemma RowsFrom30()
    ensures AllAdapt(30, 36)
  {
  }

  lemma RowsFrom36()
    ensures AllAdapt(36, 42)
  {
  }

  lemma RowsFrom42()
    ensures AllAdapt(42, 48)
  {
  }

  lemma RowsFrom48()
    ensures AllAdapt(48, 54)
  {
  }

  lemma RowsFrom54()
    ensures AllAdapt(54, 60)
  {
  }

  lemma RowsFrom60()
    ensures AllAdapt(60, 66)
  {
  }

  lemma RowsFrom66()
    ensures AllAdapt(66, 72)
  {
  }

  lemma RowsFrom72()
    ensures AllAdapt(72, 78)
  {
  }

  lemma RowsFrom78()
    ensures AllAdapt(78, 84)
  {
  }

  lemma RowsFrom84()
    ensures AllAdapt(84, 90)
  {
  }

  lemma RowsFrom90()
    ensures AllAdapt(90, 96)
  {
  }

  lemma RowsFrom96()
    ensures AllAdapt(96, 102)
  {
  }

  lemma RowsFrom102()
    ensures AllAdapt(102, 108)
  {
  }

  lemma RowsFrom108()
    ensures AllAdapt(108, 113)
  {
  }

  lemma EstimatesAdapt(i: nat)
    requires i < TABLE_SIZE
    ensures Adapts(i)
  {
    hide Adapts;
    if i < 6 {
      RowsFrom0();
      AdaptsWithin(0, 6, i);
    } else if i < 12 {
      RowsFrom6();
      AdaptsWithin(6, 12, i);
    } else if i < 18 {
      RowsFrom12();
      AdaptsWithin(12, 18, i);
    } else if i < 24 {
      RowsFrom18();
      AdaptsWithin(18, 24, i);
    } else if i < 30 {
      RowsFrom24();
      AdaptsWithin(24, 30, i);
    } else if i < 36 {
      RowsFrom30();
      AdaptsWithin(30, 36, i);
    } else if i < 42 {
      RowsFrom36();
      AdaptsWithin(36, 42, i);
    } else if i < 48 {
      RowsFrom42();
      AdaptsWithin(42, 48, i);
    } else if i < 54 {
      RowsFrom48();
      AdaptsWithin(48, 54, i);
    } else if i < 60 {
      RowsFrom54();
      AdaptsWithin(54, 60, i);
    } else if i < 66 {
      RowsFrom60();
      AdaptsWithin(60, 66, i);
    } else if i < 72 {
      RowsFrom66();
      AdaptsWithin(66, 72, i);
    } else if i < 78 {
      RowsFrom72();
      AdaptsWithin(72, 78, i);
    } else if i < 84 {
      RowsFrom78();
      AdaptsWithin(78, 84, i);
    } else if i < 90 {
      RowsFrom84();
      AdaptsWithin(84, 90, i);
    } else if i < 96 {
      RowsFrom90();
      AdaptsWithin(90, 96, i);
    } else if i < 102 {
      RowsFrom96();
      AdaptsWithin(96, 102, i);
    } else if i < 108 {
      RowsFrom102();
      AdaptsWithin(102, 108, i);
    } else {
      RowsFrom108();
      AdaptsWithin(108, 113, i);
    }
  }
}
