/**
 * The SQLite database of database/database.py as one object whose three tables
 * the handlers update in place. Each handler is a method that issues its
 * statements in the source's order and is proved to leave the store, and to
 * reply, as the function that specifies it says; every method also keeps the
 * invariants of the store.
 */
module Store {
  import opened Wrappers
  import opened Schema
  import Settings
  import Visits
  import Stickers
  import QrCodes
  import QrGenerator

  class Store {
    var visits: seq<VisitRow>
    var visitors: map<Code, VisitorRow>
    var qrCodes: seq<QrRow>
    var nextVisitId: nat
    var nextQrId: nat
    /** config.py, read once at start-up. */
    const cfg: Settings.Config

    /** The tables as a value. */
    function Snapshot(): Tables
      reads this
    {
      Tables(visits, visitors, qrCodes, nextVisitId, nextQrId)
    }

    /** The schema constraints and the invariants the handlers keep. */
    predicate Consistent()
      reads this
    {
      var t := Snapshot();
      && Valid(t) && AggregatesAgree(t)
      && DispensedOnlyWhenEligible(t, cfg.minVisitsForSticker)
      && QrGenerator.DeletedArePrefixed(t.qrCodes)
    }

    /** `init_db` on a new file: three empty tables. */
    constructor (cfg: Settings.Config)
      ensures Snapshot() == EmptyTables && this.cfg == cfg
      ensures Consistent()
    {
      visits, visitors, qrCodes := [], map[], [];
      nextVisitId, nextQrId := 1, 1;
      this.cfg := cfg;
    }

    /** `conn.commit()` of a transaction whose statements ran on the working copy `t`. */
    method Commit(t: Tables)
      modifies this
      ensures Snapshot() == t
    {
      visits, visitors, qrCodes := t.visits, t.visitors, t.qrCodes;
      nextVisitId, nextQrId := t.nextVisitId, t.nextQrId;
    }

    /** `team_scan` (app.py, routes/team.py) and `VisitorVisit.create_visit`. */
    method TeamScan(variant: Visits.ScanVariant, code: Code, team: Team, now: Timestamp) returns (reply: Visits.ScanReply)
      modifies this
      ensures (Snapshot(), reply) == Visits.RecordVisit(old(Snapshot()), variant, cfg, code, team, now)
      ensures old(Consistent()) ==> Consistent()
    {
      ghost var t0 := Snapshot();
      if Consistent() {
        RecordVisitKeepsConsistent(t0, variant, cfg, code, team, now);
      }
      if team !in cfg.allowedTeams {
        return Visits.InvalidTeam;
      }
      if variant.RejectsEmptyCode() && code == "" {
        return Visits.MissingVisitorCode;
      }
      // SELECT id FROM visitor_visits WHERE visitor_qr = ? AND team_name = ?
      var existing := FindVisit(visits, code, team);
      if existing.Some? {
        return Visits.Duplicate(Some(visits[existing.value].id));
      }
      reply := AddVisit(variant, code, team, now);
    }

    /** The statements of a first visit: insert the visit row, then update or insert the visitor row. */
    method AddVisit(variant: Visits.ScanVariant, code: Code, team: Team, now: Timestamp) returns (reply: Visits.ScanReply)
      modifies this
      ensures Snapshot() == old(Snapshot()).(visits := old(visits) + [VisitRow(old(nextVisitId), code, team, now)],
                                             visitors := old(visitors)[code := Visits.VisitedRow(old(Snapshot()), variant, code, now)],
                                             nextVisitId := old(nextVisitId) + 1)
      ensures var row := Visits.VisitedRow(old(Snapshot()), variant, code, now);
        reply == Visits.Recorded(if variant.ModelScan? then Some(old(nextVisitId)) else None, row.totalVisits,
                                 Visits.VisitsRemaining(cfg.minVisitsForSticker, row.totalVisits),
                                 row.totalVisits >= cfg.minVisitsForSticker)
    {
      // INSERT INTO visitor_visits
      var id := nextVisitId;
      visits := visits + [VisitRow(id, code, team, now)];
      nextVisitId := id + 1;
      // SELECT total_visits FROM visitors, then UPDATE or INSERT
      var total: nat;
      if code in visitors {
        var v := visitors[code];
        total := v.totalVisits + 1;
        var first := if variant.CoalescesFirstVisit() && v.firstVisit.None? then Some(now) else v.firstVisit;
        visitors := visitors[code := v.(totalVisits := total, lastVisit := Some(now), firstVisit := first)];
      } else {
        total := 1;
        var stamp := if variant.StampsNewVisitor() then Some(now) else None;
        visitors := visitors[code := DefaultVisitorRow(now).(totalVisits := 1, firstVisit := stamp, lastVisit := stamp)];
      }
      reply := Visits.Recorded(if variant.ModelScan? then Some(id) else None, total,
                               Visits.VisitsRemaining(cfg.minVisitsForSticker, total),
                               total >= cfg.minVisitsForSticker);
    }

    /** `dispense_sticker` (app.py, routes/admin.py) and `Visitor.dispense_sticker`. */
    method DispenseSticker(variant: Stickers.DispenseVariant, code: Code, adminConfirm: bool, now: Timestamp)
      returns (reply: Stickers.DispenseReply)
      modifies this
      ensures (Snapshot(), reply) == Stickers.Dispense(old(Snapshot()), variant, cfg, code, adminConfirm, now)
      ensures old(Consistent()) ==> Consistent()
    {
      if Consistent() {
        Stickers.DispenseKeepsInvariants(Snapshot(), variant, cfg, code, adminConfirm, now);
      }
      if variant.RouteDispense? && code == "" {
        return Stickers.MissingVisitorCode;
      }
      if variant.RouteDispense? && !adminConfirm {
        return Stickers.ConfirmationRequired;
      }
      // SELECT total_visits, sticker_dispensed FROM visitors WHERE visitor_qr = ?
      if code !in visitors {
        return Stickers.VisitorNotFound;
      }
      var v := visitors[code];
      if v.stickerDispensed {
        return Stickers.AlreadyDispensed;
      }
      if v.totalVisits < cfg.minVisitsForSticker {
        return Stickers.NotEligible(v.totalVisits, cfg.minVisitsForSticker - v.totalVisits);
      }
      // UPDATE visitors SET sticker_dispensed = TRUE, sticker_dispensed_time = ...
      visitors := visitors[code := v.(stickerDispensed := true, stickerDispensedTime := Some(now))];
      reply := Stickers.Dispensed(v.totalVisits);
    }

    /**
     * The `for` loop of inserts inside one transaction: each code's `qr_codes`
     * row (and `visitors` row when `withVisitors`) goes into a working copy;
     * the copy is committed after the last code, and dropped at the first
     * IntegrityError.
     */
    method InsertBatch(codes: seq<Code>, render: Code -> Image, now: Timestamp, withVisitors: bool) returns (committed: bool)
      modifies this
      ensures committed <==> QrCodes.InsertCodes(old(Snapshot()), codes, render, now, withVisitors).Ok?
      ensures committed ==> Snapshot() == QrCodes.InsertCodes(old(Snapshot()), codes, render, now, withVisitors).value
      ensures !committed ==> Snapshot() == old(Snapshot())
    {
      var work := Snapshot();
      var i := 0;
      while i < |codes|
        invariant 0 <= i <= |codes|
        invariant Snapshot() == old(Snapshot())
        invariant QrCodes.InsertCodes(old(Snapshot()), codes[..i], render, now, withVisitors) == Ok(work)
      {
        var c := codes[i];
        assert codes[..i + 1][..i] == codes[..i] && codes[..i + 1][i] == c;
        var r := QrCodes.InsertCode(work, c, render(c), now, withVisitors);
        if r.Err? {
          QrCodes.InsertCodesPrefixFails(old(Snapshot()), codes, i + 1, render, now, withVisitors);
          return false;
        }
        work := r.value;
        i := i + 1;
      }
      assert codes[..i] == codes;
      Commit(work);
      committed := true;
    }

    /** routes/qr_codes.py `generate_qr_codes`: the limit, the drawing loop, the shortfall check, the batch. */
    method GenerateQrCodes(requested: Option<int>, draw: nat -> Code, render: Code -> Image, now: Timestamp)
      returns (reply: QrCodes.GenerateReply, codes: seq<Code>)
      modifies this
      ensures (Snapshot(), reply) == QrCodes.GenerateOutcome(old(Snapshot()), QrCodes.RequestedCount(requested), codes, render, now)
      ensures QrCodes.RequestedCount(requested) > QrCodes.MaxBatch ==> codes == []
      ensures QrCodes.RequestedCount(requested) <= 0 ==> codes == []
      ensures |codes| <= QrCodes.Max(0, QrCodes.RequestedCount(requested))
      ensures reply.Generated? ==> reply.generatedCount == QrCodes.Max(0, QrCodes.RequestedCount(requested))
      ensures Distinct(codes) && forall i | 0 <= i < |codes| :: codes[i] !in AllCodes(old(qrCodes))
      ensures forall i | 0 <= i < |codes| ::
                QrCodes.DrawnWithin(draw, QrCodes.AttemptBudget(QrCodes.RequestedCount(requested)), codes[i])
      ensures old(Consistent()) ==> Consistent()
    {
      var count := QrCodes.RequestedCount(requested);
      if count > QrCodes.MaxBatch {
        return QrCodes.TooMany, [];
      }
      // SELECT qr_code FROM qr_codes
      var attempts;
      codes, attempts := QrCodes.DrawUniqueCodes(count, AllCodes(qrCodes), draw);
      forall i | 0 <= i < |codes| ensures QrCodes.DrawnWithin(draw, QrCodes.AttemptBudget(count), codes[i]) {
        var k: nat :| k < attempts && draw(k) == codes[i];
      }
      if |codes| < count {
        return QrCodes.ShortBatch(|codes|, count), codes;
      }
      ghost var t0 := Snapshot();
      var committed := InsertBatch(codes, render, now, true);
      if !committed {
        return QrCodes.BatchFailed, codes;
      }
      reply := QrCodes.Generated(|codes|, codes[..QrCodes.Min(10, |codes|)]);
      if old(Consistent()) {
        QrCodes.InsertCodesKeepsInvariants(t0, codes, render, now, true);
        BatchKeepsStoreInvariants(t0, codes, render, now, true, cfg.minVisitsForSticker);
      }
    }

    /** `QRCode.mark_printed` / `mark_distributed` and the two batch routes of routes/qr_codes.py. */
    method Mark(codes: seq<Code>, flag: QrCodes.Flag, checkEmpty: bool) returns (reply: QrCodes.MarkReply)
      modifies this
      ensures (Snapshot(), reply) == QrCodes.MarkBatch(old(Snapshot()), codes, flag, checkEmpty)
      ensures old(Consistent()) ==> Consistent()
    {
      if checkEmpty && codes == [] {
        return QrCodes.NoCodesProvided;
      }
      // UPDATE qr_codes SET ... WHERE qr_code IN (...); cursor.rowcount
      var matched := QrCodes.MatchCount(qrCodes, codes);
      ghost var t0 := Snapshot();
      if Consistent() {
        QrCodes.MarkRowsProperties(t0, codes, flag);
      }
      qrCodes := QrCodes.MarkRows(qrCodes, codes, flag);
      reply := QrCodes.Marked(matched);
      if old(Consistent()) {
        forall j | 0 <= j < |qrCodes| ensures QrGenerator.Active(qrCodes[j]) || QrGenerator.HasDeletedPrefix(qrCodes[j].qrCode) {
          assert t0.qrCodes[j].qrCode in codes ==> qrCodes[j] == QrCodes.SetFlag(t0.qrCodes[j], flag);
          assert qrCodes[j].qrCode == t0.qrCodes[j].qrCode by {
            match flag
            case Printed =>
            case Distributed =>
          }
        }
      }
    }

    /** utils/qr_generator.py `init_qr_codes`: `QR_0001` ... in one transaction. */
    method InitQrCodes(n: nat, render: Code -> Image, now: Timestamp) returns (seeded: bool)
      modifies this
      ensures seeded <==> QrGenerator.Seed(old(Snapshot()), n, render, now).Ok?
      ensures Snapshot() == if seeded then QrGenerator.Seed(old(Snapshot()), n, render, now).value else old(Snapshot())
      ensures old(Consistent()) ==> Consistent()
    {
      ghost var t0 := Snapshot();
      seeded := InsertBatch(QrGenerator.SeedLabels(n), render, now, false);
      if seeded && old(Consistent()) {
        QrCodes.InsertCodesKeepsInvariants(t0, QrGenerator.SeedLabels(n), render, now, false);
        BatchKeepsStoreInvariants(t0, QrGenerator.SeedLabels(n), render, now, false, cfg.minVisitsForSticker);
      }
    }

    /** utils/qr_generator.py `reset_qr_codes`: the soft-deleting UPDATE commits, then the reseed runs. */
    method ResetQrCodes(n: nat, render: Code -> Image, now: Timestamp) returns (outcome: QrGenerator.ResetOutcome)
      modifies this
      ensures outcome == QrGenerator.Reset(old(Snapshot()), n, render, now)
      ensures Snapshot() == if outcome.SoftDeleteFailed? then old(Snapshot()) else outcome.after
      ensures old(Consistent()) ==> outcome.Done? || outcome.SoftDeleteFailed?
      ensures old(Consistent()) ==> Consistent()
    {
      ghost var t0 := Snapshot();
      if Consistent() {
        QrGenerator.ResetSpec(t0, n, render, now);
      }
      var deleted := QrGenerator.SoftDelete(qrCodes, now);
      if deleted.Err? {
        return QrGenerator.SoftDeleteFailed;
      }
      qrCodes := deleted.value;
      var seeded := InitQrCodes(n, render, now);
      outcome := if seeded then QrGenerator.Done(Snapshot()) else QrGenerator.ReseedFailed(Snapshot());
    }
  }

  /** A scan keeps every invariant of the store. */
  lemma RecordVisitKeepsConsistent(t: Tables, variant: Visits.ScanVariant, cfg: Settings.Config, code: Code, team: Team, now: Timestamp)
    requires Valid(t) && AggregatesAgree(t) && DispensedOnlyWhenEligible(t, cfg.minVisitsForSticker)
    requires QrGenerator.DeletedArePrefixed(t.qrCodes)
    ensures var t' := Visits.RecordVisit(t, variant, cfg, code, team, now).0;
      && Valid(t') && AggregatesAgree(t') && DispensedOnlyWhenEligible(t', cfg.minVisitsForSticker)
      && QrGenerator.DeletedArePrefixed(t'.qrCodes)
  {
    Visits.RecordVisitKeepsValid(t, variant, cfg, code, team, now);
    Visits.RecordVisitKeepsAggregates(t, variant, cfg, code, team, now);
    Visits.RecordVisitKeepsDispensedEligible(t, variant, cfg, code, team, now);
  }

  /** A committed batch keeps "dispensed only when eligible" and the `DEL_` prefix of deleted rows. */
  lemma BatchKeepsStoreInvariants(t: Tables, codes: seq<Code>, render: Code -> Image, now: Timestamp, withVisitors: bool, minVisits: nat)
    requires QrCodes.InsertCodes(t, codes, render, now, withVisitors).Ok?
    requires DispensedOnlyWhenEligible(t, minVisits) && QrGenerator.DeletedArePrefixed(t.qrCodes)
    ensures var t' := QrCodes.InsertCodes(t, codes, render, now, withVisitors).value;
      DispensedOnlyWhenEligible(t', minVisits) && QrGenerator.DeletedArePrefixed(t'.qrCodes)
  {
    QrCodes.InsertCodesSpec(t, codes, render, now, withVisitors);
    var t' := QrCodes.InsertCodes(t, codes, render, now, withVisitors).value;
    var rows := QrCodes.NewRows(t.nextQrId, codes, render, now);
    var m := |t.qrCodes|;
    forall j | 0 <= j < |t'.qrCodes| ensures QrGenerator.Active(t'.qrCodes[j]) || QrGenerator.HasDeletedPrefix(t'.qrCodes[j].qrCode) {
      if j < m {
        assert t'.qrCodes[j] == t.qrCodes[j];
      } else {
        assert t'.qrCodes[j] == rows[j - m];
      }
    }
  }
}
