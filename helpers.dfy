/**
 * utils/helpers.py `check_qr_code_exists`: the active-code predicate, and how
 * each lifecycle operation changes its answer.
 */
module Helpers {
  import opened Schema
  import QrCodes
  import QrGenerator

  /** Some row holds the code and has no deletion time (`LIMIT 1`: how many match does not matter). */
  predicate CodeActive(q: seq<QrRow>, code: Code)
    ensures CodeActive(q, code) ==> CodeInUse(q, code)
    ensures q == [] ==> !CodeActive(q, code)
  {
    exists i | 0 <= i < |q| :: q[i].qrCode == code && q[i].deletedTime.None?
  }

  /** An active code is a code in use; with unique codes its one row is the active one. */
  lemma ActiveCodeIsItsRow(q: seq<QrRow>, code: Code, i: nat)
    requires UniqueQrCodes(q) && i < |q| && q[i].qrCode == code
    ensures CodeActive(q, code) <==> q[i].deletedTime.None?
    ensures CodeActive(q, code) ==> CodeInUse(q, code)
  {
  }

  /** Right after the soft delete nothing is active, under its old code or its `DEL_` code. */
  lemma NothingActiveAfterSoftDelete(q: seq<QrRow>, now: Timestamp, code: Code)
    requires UniqueQrCodes(q) && QrGenerator.SoftDelete(q, now).Ok?
    ensures !CodeActive(QrGenerator.SoftDelete(q, now).value, code)
  {
    QrGenerator.SoftDeleteLeavesNoActiveRow(q, now);
  }

  /** After a completed reset the active codes are exactly the seed labels. */
  lemma ActiveAfterReset(t: Tables, n: nat, render: Code -> Image, now: Timestamp, code: Code)
    requires Valid(t) && AggregatesAgree(t) && QrGenerator.DeletedArePrefixed(t.qrCodes)
    requires QrGenerator.Reset(t, n, render, now).Done?
    ensures CodeActive(QrGenerator.Reset(t, n, render, now).after.qrCodes, code)
            <==> exists i | 0 <= i < n :: code == QrGenerator.SeqLabel(i)
  {
    var q := QrGenerator.Reset(t, n, render, now).after.qrCodes;
    ResetShape(t, n, render, now);
    ActiveInResetShape(q, |t.qrCodes|, n, code);
  }

  /** After a completed reset the old rows are inactive and the labels follow them, active. */
  lemma ResetShape(t: Tables, n: nat, render: Code -> Image, now: Timestamp)
    requires Valid(t) && AggregatesAgree(t) && QrGenerator.DeletedArePrefixed(t.qrCodes)
    requires QrGenerator.Reset(t, n, render, now).Done?
    ensures ResetShaped(QrGenerator.Reset(t, n, render, now).after.qrCodes, |t.qrCodes|, n)
  {
    QrGenerator.ResetSpec(t, n, render, now);
    var q := QrGenerator.Reset(t, n, render, now).after.qrCodes;
    forall j | 0 <= j < |t.qrCodes| ensures !QrGenerator.Active(q[j]) {
      assert q[j] == QrGenerator.Processed(t.qrCodes[j], now);
    }
  }

  /** A table of `m` deleted rows followed by the `n` active seed labels. */
  predicate ResetShaped(q: seq<QrRow>, m: nat, n: nat)
  {
    && |q| == m + n
    && (forall j | 0 <= j < m :: !QrGenerator.Active(q[j]))
    && (forall j | 0 <= j < n :: q[m + j].qrCode == QrGenerator.SeqLabel(j) && QrGenerator.Active(q[m + j]))
  }

  lemma ActiveInResetShape(q: seq<QrRow>, m: nat, n: nat, code: Code)
    requires ResetShaped(q, m, n)
    ensures CodeActive(q, code) <==> exists i | 0 <= i < n :: code == QrGenerator.SeqLabel(i)
  {
    if CodeActive(q, code) {
      var k :| 0 <= k < |q| && q[k].qrCode == code && q[k].deletedTime.None?;
      assert k >= m;
      assert code == QrGenerator.SeqLabel(k - m);
    }
    if exists i | 0 <= i < n :: code == QrGenerator.SeqLabel(i) {
      var i :| 0 <= i < n && code == QrGenerator.SeqLabel(i);
      assert q[m + i].qrCode == code;
    }
  }

  /** Every code of a committed batch is active. */
  lemma BatchCodesActive(t: Tables, codes: seq<Code>, render: Code -> Image, now: Timestamp, withVisitors: bool, i: nat)
    requires QrCodes.InsertCodes(t, codes, render, now, withVisitors).Ok? && i < |codes|
    ensures CodeActive(QrCodes.InsertCodes(t, codes, render, now, withVisitors).value.qrCodes, codes[i])
  {
    QrCodes.InsertCodesSpec(t, codes, render, now, withVisitors);
    var q := QrCodes.InsertCodes(t, codes, render, now, withVisitors).value.qrCodes;
    assert q[|t.qrCodes| + i] == QrCodes.NewRows(t.nextQrId, codes, render, now)[i];
  }

  /** Marking printed or distributed does not change which codes are active. */
  lemma MarkKeepsActive(q: seq<QrRow>, codes: seq<Code>, flag: QrCodes.Flag, code: Code)
    ensures CodeActive(QrCodes.MarkRows(q, codes, flag), code) <==> CodeActive(q, code)
  {
    var q' := QrCodes.MarkRows(q, codes, flag);
    assert forall i | 0 <= i < |q| :: q'[i].qrCode == q[i].qrCode && q'[i].deletedTime == q[i].deletedTime;
  }
}
