/**
 * utils/qr_generator.py: seeding the `qr_codes` table with sequential labels
 * and the soft-delete reset. The QR image encoder is the opaque `render`.
 */
module QrGenerator {
  import opened Wrappers
  import opened Schema
  import Text
  import QrCodes

  /** `f"QR_{i + 1:04}"`. */
  function SeqLabel(i: nat): (s: Code)
    ensures |s| >= 7 && s[..3] == "QR_"
  {
    "QR_" + Text.ZeroPad(Text.Decimal(i + 1), 4)
  }

  /** Distinct indices give distinct labels. */
  lemma SeqLabelInjective(i: nat, j: nat)
    ensures SeqLabel(i) == SeqLabel(j) <==> i == j
  {
    if SeqLabel(i) == SeqLabel(j) {
      assert SeqLabel(i)[3..] == Text.ZeroPad(Text.Decimal(i + 1), 4);
      assert SeqLabel(j)[3..] == Text.ZeroPad(Text.Decimal(j + 1), 4);
      Text.PaddedDecimalInjective(i + 1, j + 1, 4);
    }
  }

  /** The first label is `QR_0001`. */
  lemma FirstLabel()
    ensures SeqLabel(0) == "QR_0001"
  {
    assert Text.Decimal(1) == "1";
    assert Text.Zeros(3) == "000";
  }

  /** The labels `init_qr_codes` inserts, in order. */
  function SeedLabels(n: nat): (labels: seq<Code>)
    ensures |labels| == n
    ensures forall i | 0 <= i < n :: labels[i] == SeqLabel(i)
  {
    seq(n, i requires 0 <= i => SeqLabel(i))
  }

  lemma SeedLabelsDistinct(n: nat)
    ensures Distinct(SeedLabels(n))
  {
    var labels := SeedLabels(n);
    forall i, j | 0 <= i < j < n ensures labels[i] != labels[j] {
      SeqLabelInjective(i, j);
    }
  }

  /** `init_qr_codes`: one transaction inserting `n` labelled `qr_codes` rows, and no `visitors` rows. */
  function Seed(t: Tables, n: nat, render: Code -> Image, now: Timestamp): (r: Result<Tables, DbError>)
    ensures r.Ok? ==> r.value.visits == t.visits && r.value.visitors == t.visitors
    ensures r.Ok? ==> |r.value.qrCodes| == |t.qrCodes| + n
  {
    QrCodes.InsertCodes(t, SeedLabels(n), render, now, false)
  }

  /** Seeding commits exactly when no label is in use, and then appends the labels in order. */
  lemma SeedSpec(t: Tables, n: nat, render: Code -> Image, now: Timestamp)
    ensures Seed(t, n, render, now).Ok? <==> forall i | 0 <= i < n :: !CodeInUse(t.qrCodes, SeqLabel(i))
    ensures Seed(t, n, render, now).Ok? ==>
              QrCodes.BatchResult(t, Seed(t, n, render, now).value, SeedLabels(n), render, now, false)
  {
    SeedLabelsDistinct(n);
    QrCodes.InsertCodesSpec(t, SeedLabels(n), render, now, false);
  }

  // ----- the soft delete -----

  predicate Active(row: QrRow) { row.deletedTime.None? }

  /** `SET qr_code = 'DEL_' || qr_code, deleted_time = ?` on one active row. */
  function Retired(row: QrRow, now: Timestamp): QrRow
  {
    row.(qrCode := "DEL_" + row.qrCode, deletedTime := Some(now))
  }

  /** What the UPDATE makes of a row: active rows are retired, deleted rows are untouched. */
  function Processed(row: QrRow, now: Timestamp): QrRow
  {
    if Active(row) then Retired(row, now) else row
  }

  /** The table while the UPDATE is at row `i`: rows before `i` done, the rest as they were. */
  function Midway(q: seq<QrRow>, i: nat, now: Timestamp): (m: seq<QrRow>)
    ensures |m| == |q|
    ensures forall j | 0 <= j < |q| :: m[j] == if j < i then Processed(q[j], now) else q[j]
  {
    seq(|q|, j requires 0 <= j < |q| => if j < i then Processed(q[j], now) else q[j])
  }

  /**
   * The UPDATE at row `i` onwards. SQLite checks the UNIQUE constraint as each
   * row changes, so a new code that matches any current code, including one
   * not yet renamed, fails the statement.
   */
  function SoftDeleteFrom(q: seq<QrRow>, i: nat, now: Timestamp): (r: Result<seq<QrRow>, DbError>)
    requires i <= |q|
    ensures r.Ok? ==> |r.value| == |q|
    ensures r.Ok? ==> forall j | 0 <= j < i :: r.value[j] == q[j]
    ensures r.Ok? ==> forall j | 0 <= j < |q| :: r.value[j].id == q[j].id
    decreases |q| - i
  {
    if i == |q| then Ok(q)
    else if !Active(q[i]) then SoftDeleteFrom(q, i + 1, now)
    else if CodeInUse(q, "DEL_" + q[i].qrCode) then Err(IntegrityError)
    else SoftDeleteFrom(q[i := Retired(q[i], now)], i + 1, now)
  }

  /** `UPDATE qr_codes SET ... WHERE deleted_time IS NULL`. */
  function SoftDelete(q: seq<QrRow>, now: Timestamp): (r: Result<seq<QrRow>, DbError>)
    ensures r.Ok? ==> |r.value| == |q| && forall j | 0 <= j < |q| :: r.value[j].id == q[j].id
  {
    SoftDeleteFrom(q, 0, now)
  }

  /**
   * The rename of active row `a` never meets a code that is current at that
   * moment: a row holding `DEL_` + its code must be an earlier active row
   * (already renamed away by then).
   */
  predicate RenameFreeFrom(q: seq<QrRow>, i: nat)
  {
    forall a, b | i <= a < |q| && 0 <= b < |q| && Active(q[a]) && q[b].qrCode == "DEL_" + q[a].qrCode ::
      b < a && Active(q[b])
  }

  lemma {:induction false} SoftDeleteFromSpec(q: seq<QrRow>, i: nat, now: Timestamp)
    requires UniqueQrCodes(q) && i <= |q|
    ensures SoftDeleteFrom(Midway(q, i, now), i, now).Ok? <==> RenameFreeFrom(q, i)
    ensures SoftDeleteFrom(Midway(q, i, now), i, now).Ok? ==>
              SoftDeleteFrom(Midway(q, i, now), i, now).value == Midway(q, |q|, now)
    decreases |q| - i
  {
    var m := Midway(q, i, now);
    if i == |q| {
    } else {
      SoftDeleteFromSpec(q, i + 1, now);
      if !Active(q[i]) {
        assert m == Midway(q, i + 1, now);
      } else {
        var c := "DEL_" + q[i].qrCode;
        RenameCheckAt(q, i, now);
        if !CodeInUse(m, c) {
          assert m[i := Retired(q[i], now)] == Midway(q, i + 1, now);
        }
      }
    }
  }

  lemma PrefixCancel(x: string, y: string)
    ensures "DEL_" + x == "DEL_" + y <==> x == y
  {
    assert ("DEL_" + x)[4..] == x;
    assert ("DEL_" + y)[4..] == y;
  }

  /** Row `i`'s own rename meets a current code. */
  predicate RenameBlockedAt(q: seq<QrRow>, a: nat)
    requires a < |q|
  {
    exists b | 0 <= b < |q| :: q[b].qrCode == "DEL_" + q[a].qrCode && !(b < a && Active(q[b]))
  }

  lemma RenameCheckAt(q: seq<QrRow>, i: nat, now: Timestamp)
    requires UniqueQrCodes(q) && i < |q| && Active(q[i])
    ensures CodeInUse(Midway(q, i, now), "DEL_" + q[i].qrCode) <==> RenameBlockedAt(q, i)
    ensures RenameFreeFrom(q, i) <==> RenameFreeFrom(q, i + 1) && !RenameBlockedAt(q, i)
  {
    var m := Midway(q, i, now);
    var c := "DEL_" + q[i].qrCode;
    forall b | 0 <= b < i && Active(q[b]) ensures m[b].qrCode != c {
      PrefixCancel(q[b].qrCode, q[i].qrCode);
    }
    if CodeInUse(m, c) {
      var b :| 0 <= b < |m| && m[b].qrCode == c;
      assert m[b] == q[b];
    }
    if RenameBlockedAt(q, i) {
      var b :| 0 <= b < |q| && q[b].qrCode == c && !(b < i && Active(q[b]));
      assert m[b] == q[b];
    }
  }

  /**
   * The UPDATE commits exactly when no rename meets a current code, and then
   * retires every active row in place and leaves deleted rows as they were.
   */
  lemma SoftDeleteSpec(q: seq<QrRow>, now: Timestamp)
    requires UniqueQrCodes(q)
    ensures SoftDelete(q, now).Ok? <==> RenameFreeFrom(q, 0)
    ensures SoftDelete(q, now).Ok? ==>
      var q' := SoftDelete(q, now).value;
      && |q'| == |q|
      && (forall j | 0 <= j < |q| && Active(q[j]) :: q'[j] == Retired(q[j], now))
      && (forall j | 0 <= j < |q| && !Active(q[j]) :: q'[j] == q[j])
  {
    assert Midway(q, 0, now) == q;
    SoftDeleteFromSpec(q, 0, now);
  }

  /** After the UPDATE no row is active, and the codes are still unique. */
  lemma SoftDeleteLeavesNoActiveRow(q: seq<QrRow>, now: Timestamp)
    requires UniqueQrCodes(q) && SoftDelete(q, now).Ok?
    ensures var q' := SoftDelete(q, now).value;
      && |q'| == |q|
      && (forall j | 0 <= j < |q'| :: !Active(q'[j]) && q'[j].id == q[j].id)
      && UniqueQrCodes(q')
  {
    SoftDeleteSpec(q, now);
    var q' := SoftDelete(q, now).value;
    forall a, b | 0 <= a < b < |q'| ensures q'[a].qrCode != q'[b].qrCode {
      if Active(q[a]) && Active(q[b]) {
        PrefixCancel(q[a].qrCode, q[b].qrCode);
      } else if Active(q[a]) {
        assert q'[b] == q[b];
        assert !(q[b].qrCode == "DEL_" + q[a].qrCode) by {
          assert RenameFreeFrom(q, 0);
        }
      } else if Active(q[b]) {
        assert q'[a] == q[a];
        assert !(q[a].qrCode == "DEL_" + q[b].qrCode) by {
          assert RenameFreeFrom(q, 0);
        }
      }
    }
  }

  /** An active code whose `DEL_` form is already held by a deleted row makes the UPDATE fail. */
  lemma CollisionFailsSoftDelete(q: seq<QrRow>, now: Timestamp, a: nat, b: nat)
    requires UniqueQrCodes(q) && a < |q| && b < |q|
    requires Active(q[a]) && !Active(q[b]) && q[b].qrCode == "DEL_" + q[a].qrCode
    ensures SoftDelete(q, now).Err?
  {
    SoftDeleteSpec(q, now);
  }

  // ----- reset_qr_codes -----

  datatype ResetOutcome =
    | SoftDeleteFailed            // IntegrityError in the UPDATE: rolled back, nothing reseeded
    | ReseedFailed(after: Tables) // the UPDATE committed; the seeding transaction rolled back
    | Done(after: Tables)

  /** Two transactions: the soft delete commits on its own, then `init_qr_codes` runs. */
  function Reset(t: Tables, n: nat, render: Code -> Image, now: Timestamp): (r: ResetOutcome)
    ensures !r.SoftDeleteFailed? ==> r.after.visits == t.visits && r.after.visitors == t.visitors
    ensures r.ReseedFailed? ==> |r.after.qrCodes| == |t.qrCodes|
    ensures r.Done? ==> |r.after.qrCodes| == |t.qrCodes| + n
  {
    match SoftDelete(t.qrCodes, now)
    case Err(_) => SoftDeleteFailed
    case Ok(q1) =>
      var t1 := t.(qrCodes := q1);
      match Seed(t1, n, render, now)
      case Err(_) => ReseedFailed(t1)
      case Ok(t2) => Done(t2)
  }

  /** Soft-deleted rows carry the `DEL_` prefix. */
  predicate DeletedArePrefixed(q: seq<QrRow>)
  {
    forall j | 0 <= j < |q| && !Active(q[j]) :: HasDeletedPrefix(q[j].qrCode)
  }

  predicate HasDeletedPrefix(c: Code) { |c| >= 4 && c[..4] == "DEL_" }

  /** After the UPDATE, with deleted rows prefixed before, every row holds a `DEL_` code. */
  lemma SoftDeletePrefixesAll(q: seq<QrRow>, now: Timestamp)
    requires UniqueQrCodes(q) && DeletedArePrefixed(q) && SoftDelete(q, now).Ok?
    ensures var q' := SoftDelete(q, now).value;
      |q'| == |q| && forall j | 0 <= j < |q'| :: HasDeletedPrefix(q'[j].qrCode)
  {
    SoftDeleteSpec(q, now);
    var q' := SoftDelete(q, now).value;
    forall j | 0 <= j < |q'| ensures HasDeletedPrefix(q'[j].qrCode) {
      if Active(q[j]) {
        assert q'[j].qrCode == "DEL_" + q[j].qrCode;
      }
    }
  }

  /** No seed label starts with `DEL_`. */
  lemma LabelNotPrefixed(i: nat, c: Code)
    requires HasDeletedPrefix(c)
    ensures c != SeqLabel(i)
  {
    assert c[0] == c[..4][0] == 'D';
    assert SeqLabel(i)[0] == SeqLabel(i)[..3][0] == 'Q';
  }

  /**
   * When deleted rows carry the prefix, a reset either fails in its UPDATE
   * (changing nothing) or completes: the old rows all soft-deleted in place,
   * then the `n` labels appended as active rows; the invariants hold after.
   */
  lemma ResetSpec(t: Tables, n: nat, render: Code -> Image, now: Timestamp)
    requires Valid(t) && AggregatesAgree(t) && DeletedArePrefixed(t.qrCodes)
    ensures !Reset(t, n, render, now).ReseedFailed?
    ensures Reset(t, n, render, now).SoftDeleteFailed? <==> !RenameFreeFrom(t.qrCodes, 0)
    ensures Reset(t, n, render, now).Done? ==>
      var t2 := Reset(t, n, render, now).after;
      && Valid(t2) && AggregatesAgree(t2) && DeletedArePrefixed(t2.qrCodes)
      && t2.visits == t.visits && t2.visitors == t.visitors
      && |t2.qrCodes| == |t.qrCodes| + n
      && (forall j | 0 <= j < |t.qrCodes| :: t2.qrCodes[j] == Processed(t.qrCodes[j], now))
      && (forall j | 0 <= j < n :: t2.qrCodes[|t.qrCodes| + j].qrCode == SeqLabel(j)
                                  && Active(t2.qrCodes[|t.qrCodes| + j]))
  {
    SoftDeleteSpec(t.qrCodes, now);
    if SoftDelete(t.qrCodes, now).Ok? {
      var t1 := t.(qrCodes := SoftDelete(t.qrCodes, now).value);
      SoftDeletedStore(t, now);
      NoLabelInUse(t1.qrCodes, n);
      SeedSpec(t1, n, render, now);
      ReseedDone(t1, n, render, now);
      assert Reset(t, n, render, now) == Done(Seed(t1, n, render, now).value);
    }
  }

  /** The store between the two transactions of a reset. */
  lemma SoftDeletedStore(t: Tables, now: Timestamp)
    requires Valid(t) && AggregatesAgree(t) && DeletedArePrefixed(t.qrCodes) && SoftDelete(t.qrCodes, now).Ok?
    ensures var t1 := t.(qrCodes := SoftDelete(t.qrCodes, now).value);
      && Valid(t1) && AggregatesAgree(t1)
      && forall j | 0 <= j < |t1.qrCodes| :: HasDeletedPrefix(t1.qrCodes[j].qrCode)
  {
    SoftDeleteLeavesNoActiveRow(t.qrCodes, now);
    SoftDeletePrefixesAll(t.qrCodes, now);
  }

  /** Once every row holds a `DEL_` code, every seed label is free. */
  lemma NoLabelInUse(q1: seq<QrRow>, n: nat)
    requires forall j | 0 <= j < |q1| :: HasDeletedPrefix(q1[j].qrCode)
    ensures forall i | 0 <= i < n :: !CodeInUse(q1, SeqLabel(i))
  {
    forall i | 0 <= i < n ensures !CodeInUse(q1, SeqLabel(i)) {
      forall j | 0 <= j < |q1| ensures q1[j].qrCode != SeqLabel(i) {
        LabelNotPrefixed(i, q1[j].qrCode);
      }
    }
  }

  lemma AppendActiveKeepsPrefixed(q1: seq<QrRow>, rows: seq<QrRow>)
    requires forall j | 0 <= j < |q1| :: HasDeletedPrefix(q1[j].qrCode)
    requires forall k | 0 <= k < |rows| :: Active(rows[k])
    ensures DeletedArePrefixed(q1 + rows)
  {
    var q := q1 + rows;
    forall j | 0 <= j < |q| ensures Active(q[j]) || HasDeletedPrefix(q[j].qrCode) {
      if j < |q1| { assert q[j] == q1[j]; } else { assert q[j] == rows[j - |q1|]; }
    }
  }

  lemma ReseedDone(t1: Tables, n: nat, render: Code -> Image, now: Timestamp)
    requires Valid(t1) && AggregatesAgree(t1) && Seed(t1, n, render, now).Ok?
    requires QrCodes.BatchResult(t1, Seed(t1, n, render, now).value, SeedLabels(n), render, now, false)
    requires forall j | 0 <= j < |t1.qrCodes| :: HasDeletedPrefix(t1.qrCodes[j].qrCode)
    ensures var t2 := Seed(t1, n, render, now).value;
      && Valid(t2) && AggregatesAgree(t2) && DeletedArePrefixed(t2.qrCodes)
      && |t2.qrCodes| == |t1.qrCodes| + n
      && (forall j | 0 <= j < |t1.qrCodes| :: t2.qrCodes[j] == t1.qrCodes[j])
      && (forall j | 0 <= j < n :: t2.qrCodes[|t1.qrCodes| + j].qrCode == SeqLabel(j)
                                  && Active(t2.qrCodes[|t1.qrCodes| + j]))
  {
    var t2 := Seed(t1, n, render, now).value;
    QrCodes.InsertCodesKeepsInvariants(t1, SeedLabels(n), render, now, false);
    var rows := QrCodes.NewRows(t1.nextQrId, SeedLabels(n), render, now);
    var m := |t1.qrCodes|;
    assert t2.qrCodes == t1.qrCodes + rows;
    AppendedLabels(t1.qrCodes, t1.nextQrId, n, render, now);
  }

  /** The seed rows appended behind `q1` are the active labels, in order. */
  lemma AppendedLabels(q1: seq<QrRow>, id: nat, n: nat, render: Code -> Image, now: Timestamp)
    requires forall j | 0 <= j < |q1| :: HasDeletedPrefix(q1[j].qrCode)
    ensures var q := q1 + QrCodes.NewRows(id, SeedLabels(n), render, now);
      && DeletedArePrefixed(q)
      && (forall j | 0 <= j < n :: q[|q1| + j].qrCode == SeqLabel(j) && Active(q[|q1| + j]))
  {
    var rows := QrCodes.NewRows(id, SeedLabels(n), render, now);
    var q := q1 + rows;
    AppendActiveKeepsPrefixed(q1, rows);
    forall j | 0 <= j < n ensures q[|q1| + j].qrCode == SeqLabel(j) && Active(q[|q1| + j]) {
      assert q[|q1| + j] == rows[j];
    }
  }

  /**
   * The labels are reused, so resetting twice fails: once `QR_0001` has been
   * retired to `DEL_QR_0001`, the next UPDATE tries to create that code again.
   */
  lemma SecondResetFails(t: Tables, n: nat, render: Code -> Image, now: Timestamp, later: Timestamp)
    requires Valid(t) && AggregatesAgree(t) && DeletedArePrefixed(t.qrCodes)
    requires n >= 1 && Reset(t, n, render, now).Done?
    requires exists j | 0 <= j < |t.qrCodes| :: t.qrCodes[j].qrCode == SeqLabel(0) && Active(t.qrCodes[j])
    ensures Reset(Reset(t, n, render, now).after, n, render, later).SoftDeleteFailed?
  {
    ResetSpec(t, n, render, now);
    var t2 := Reset(t, n, render, now).after;
    var j :| 0 <= j < |t.qrCodes| && t.qrCodes[j].qrCode == SeqLabel(0) && Active(t.qrCodes[j]);
    var a := |t.qrCodes|;
    assert t2.qrCodes[j] == Retired(t.qrCodes[j], now);
    CollisionFailsSoftDelete(t2.qrCodes, later, a, j);
  }

  /** A freshly seeded store holds only active `QR_` labels, so its first reset renames freely. */
  lemma SeededStore(n: nat, render: Code -> Image, now: Timestamp)
    ensures Seed(EmptyTables, n, render, now).Ok?
    ensures var t := Seed(EmptyTables, n, render, now).value;
      && Valid(t) && AggregatesAgree(t) && DeletedArePrefixed(t.qrCodes)
      && RenameFreeFrom(t.qrCodes, 0)
      && |t.qrCodes| == n
      && (forall j | 0 <= j < n :: t.qrCodes[j].qrCode == SeqLabel(j) && Active(t.qrCodes[j]))
  {
    SeededRows(n, render, now);
    var t := Seed(EmptyTables, n, render, now).value;
    QrCodes.InsertCodesKeepsInvariants(EmptyTables, SeedLabels(n), render, now, false);
    ActiveLabelsRenameFreely(t.qrCodes);
  }

  /** Seeding an empty store succeeds and leaves exactly the `n` labels, all active. */
  lemma SeededRows(n: nat, render: Code -> Image, now: Timestamp)
    ensures Seed(EmptyTables, n, render, now).Ok?
    ensures var q := Seed(EmptyTables, n, render, now).value.qrCodes;
      |q| == n && forall j | 0 <= j < n :: q[j].qrCode == SeqLabel(j) && Active(q[j])
  {
    SeedSpec(EmptyTables, n, render, now);
    var t := Seed(EmptyTables, n, render, now).value;
    var labels := SeedLabels(n);
    var rows := QrCodes.NewRows(1, labels, render, now);
    assert t.qrCodes == [] + rows == rows;
    forall j | 0 <= j < n ensures t.qrCodes[j].qrCode == SeqLabel(j) && Active(t.qrCodes[j]) {
      assert rows[j] == NewQrRow(1 + j, labels[j], render(labels[j]), now);
    }
  }

  /** A table of active seed labels has its deleted rows prefixed (there are none) and renames freely. */
  lemma ActiveLabelsRenameFreely(q: seq<QrRow>)
    requires forall j | 0 <= j < |q| :: q[j].qrCode == SeqLabel(j) && Active(q[j])
    ensures DeletedArePrefixed(q) && RenameFreeFrom(q, 0)
  {
    LabelsNeverRetiredCodes(q);
  }

  /** A table of seed labels holds no `DEL_` code, so no rename can collide in it. */
  lemma LabelsNeverRetiredCodes(q: seq<QrRow>)
    requires forall j | 0 <= j < |q| :: q[j].qrCode == SeqLabel(j)
    ensures forall a, b | 0 <= a < |q| && 0 <= b < |q| :: q[b].qrCode != "DEL_" + q[a].qrCode
  {
    forall a, b | 0 <= a < |q| && 0 <= b < |q| ensures q[b].qrCode != "DEL_" + q[a].qrCode {
      assert q[b].qrCode[0] == SeqLabel(b)[..3][0] == 'Q';
      assert ("DEL_" + q[a].qrCode)[0] == 'D';
    }
  }

  /** From an empty store: seed, reset (which succeeds), reset again (which fails). */
  lemma SeedResetResetFails(n: nat, render: Code -> Image, now: Timestamp, later: Timestamp, latest: Timestamp)
    requires n >= 1
    ensures Seed(EmptyTables, n, render, now).Ok?
    ensures var t := Seed(EmptyTables, n, render, now).value;
      && Reset(t, n, render, later).Done?
      && Reset(Reset(t, n, render, later).after, n, render, latest).SoftDeleteFailed?
  {
    SeededStore(n, render, now);
    var t := Seed(EmptyTables, n, render, now).value;
    ResetSpec(t, n, render, later);
    assert t.qrCodes[0].qrCode == SeqLabel(0) && Active(t.qrCodes[0]);
    SecondResetFails(t, n, render, later, latest);
  }
}
