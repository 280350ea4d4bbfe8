/**
 * Eligibility and dispensing: `sticker_check`, `_get_sticker_message`,
 * `dispense_sticker` and the dashboard counts of routes/admin.py, the same
 * handlers in app.py, and `Visitor.dispense_sticker` in database/models.py.
 */
module Stickers {
  import opened Wrappers
  import opened Schema
  import Settings
  import Visits

  /** The three texts `_get_sticker_message` chooses between. */
  datatype StickerMessage =
    | AlreadyDispensedMessage       // "Sticker already dispensed to this visitor"
    | ReadyToDispense               // "Visitor is eligible for sticker! Ready to dispense."
    | NeedsMoreVisits(remaining: int) // "Visitor needs {remaining} more visits to be eligible for sticker"

  /** `_get_sticker_message(eligible, already_dispensed, total_visits)`. */
  function StickerMessageFor(eligible: bool, alreadyDispensed: bool, total: nat, minVisits: nat): (m: StickerMessage)
    ensures m.AlreadyDispensedMessage? <==> alreadyDispensed
    ensures m.ReadyToDispense? <==> !alreadyDispensed && eligible
    ensures m.NeedsMoreVisits? <==> !alreadyDispensed && !eligible
  {
    if alreadyDispensed then AlreadyDispensedMessage
    else if eligible then ReadyToDispense
    else NeedsMoreVisits(minVisits - total)
  }

  /**
   * As `sticker_check` calls it (eligible meaning total >= MIN), a "needs N
   * more" message always names a positive N, the same N as visits_remaining.
   */
  lemma NeedsMoreIsRemaining(alreadyDispensed: bool, total: nat, minVisits: nat)
    ensures var m := StickerMessageFor(total >= minVisits, alreadyDispensed, total, minVisits);
      m.NeedsMoreVisits? ==> m.remaining > 0 && m.remaining == Visits.VisitsRemaining(minVisits, total)
  {
  }

  datatype CheckReply =
    | CheckMissingCode     // 400
    | CheckNotFound        // 404, eligible False and total_visits 0
    | CheckServerError     // 500
    | StickerStatus(
        eligible: bool,
        totalVisits: nat,
        requiredVisits: nat,
        visitsRemaining: nat,
        alreadyDispensed: bool,
        stickerDispensedTime: Option<Timestamp>,
        visits: seq<VisitRow>,
        message: StickerMessage)

  /** routes/admin.py `sticker_check`: a read-only report on one visitor. */
  function StickerCheck(t: Tables, cfg: Settings.Config, code: Code): (r: CheckReply)
    ensures r.CheckMissingCode? <==> code == ""
    ensures r.CheckNotFound? <==> code != "" && code !in t.visitors
    ensures r.StickerStatus? <==> code != "" && code in t.visitors
    ensures r.StickerStatus? ==>
      var v := t.visitors[code];
      && r.totalVisits == v.totalVisits
      && r.requiredVisits == cfg.minVisitsForSticker
      && r.alreadyDispensed == v.stickerDispensed
      && (r.eligible <==> v.totalVisits >= cfg.minVisitsForSticker && !v.stickerDispensed)
      && r.visitsRemaining == Visits.VisitsRemaining(cfg.minVisitsForSticker, v.totalVisits)
      && r.stickerDispensedTime == v.stickerDispensedTime
      && r.message == StickerMessageFor(v.totalVisits >= cfg.minVisitsForSticker, v.stickerDispensed,
                                        v.totalVisits, cfg.minVisitsForSticker)
      && Sorting.SortedBy(r.visits, (x: VisitRow) => x.visitTime)
      && multiset(r.visits) == multiset(VisitsOf(t.visits, code))
  {
    if code == "" then CheckMissingCode
    else if code !in t.visitors then CheckNotFound
    else
      var v := t.visitors[code];
      var eligible := v.totalVisits >= cfg.minVisitsForSticker;
      StickerStatus(
        eligible && !v.stickerDispensed,
        v.totalVisits,
        cfg.minVisitsForSticker,
        Visits.VisitsRemaining(cfg.minVisitsForSticker, v.totalVisits),
        v.stickerDispensed,
        v.stickerDispensedTime,
        SortedByTime(VisitsOf(t.visits, code)),
        StickerMessageFor(eligible, v.stickerDispensed, v.totalVisits, cfg.minVisitsForSticker))
  }

  /**
   * app.py `sticker_check` as written: once the visitor is found, building
   * the reply evaluates `self._get_sticker_message(...)` in a module-level
   * function, which raises NameError and is caught as a 500.
   */
  function AppStickerCheck(t: Tables, cfg: Settings.Config, code: Code): (r: CheckReply)
    ensures r.CheckMissingCode? <==> code == ""
    ensures r.CheckNotFound? <==> code != "" && code !in t.visitors
    ensures r.CheckServerError? <==> code != "" && code in t.visitors
    ensures !r.StickerStatus?
  {
    if code == "" then CheckMissingCode
    else if code !in t.visitors then CheckNotFound
    else CheckServerError
  }

  /** app.py's version never reports a status: every known visitor gets a 500, where routes/admin.py answers. */
  lemma AppStickerCheckFailsForKnownVisitors(t: Tables, cfg: Settings.Config, code: Code)
    requires code != "" && code in t.visitors
    ensures AppStickerCheck(t, cfg, code).CheckServerError?
    ensures StickerCheck(t, cfg, code).StickerStatus?
  {
  }

  /** The two dispensers: the route (app.py, routes/admin.py) and the model method. */
  datatype DispenseVariant =
    | RouteDispense  // checks visitorQR and adminConfirm first
    | ModelDispense  // Visitor.dispense_sticker: starts at the lookup

  datatype DispenseReply =
    | MissingVisitorCode                              // 400
    | ConfirmationRequired                            // 400 "Admin confirmation required"
    | VisitorNotFound                                 // 404
    | AlreadyDispensed                                // 400 with 'already_dispensed': True
    | NotEligible(totalVisits: nat, visitsRemaining: nat) // 400 with 'eligible': False
    | Dispensed(totalVisits: nat)

  predicate PassesRequestChecks(variant: DispenseVariant, code: Code, adminConfirm: bool)
  {
    variant.ModelDispense? || (code != "" && adminConfirm)
  }

  /** The checks in their order, then the one-way `UPDATE visitors SET sticker_dispensed = TRUE`. */
  function Dispense(t: Tables, variant: DispenseVariant, cfg: Settings.Config, code: Code, adminConfirm: bool, now: Timestamp)
    : (r: (Tables, DispenseReply))
    ensures r.1.MissingVisitorCode? <==> variant.RouteDispense? && code == ""
    ensures r.1.ConfirmationRequired? <==> variant.RouteDispense? && code != "" && !adminConfirm
    ensures r.1.VisitorNotFound? <==> PassesRequestChecks(variant, code, adminConfirm) && code !in t.visitors
    ensures r.1.AlreadyDispensed? <==> (PassesRequestChecks(variant, code, adminConfirm) && code in t.visitors
                                        && t.visitors[code].stickerDispensed)
    ensures r.1.NotEligible? <==> (PassesRequestChecks(variant, code, adminConfirm) && code in t.visitors
                                   && !t.visitors[code].stickerDispensed
                                   && t.visitors[code].totalVisits < cfg.minVisitsForSticker)
    ensures r.1.NotEligible? ==> (r.1.totalVisits == t.visitors[code].totalVisits
                                  && r.1.visitsRemaining > 0
                                  && r.1.totalVisits + r.1.visitsRemaining == cfg.minVisitsForSticker)
    ensures r.1.Dispensed? <==> (PassesRequestChecks(variant, code, adminConfirm) && code in t.visitors
                                 && !t.visitors[code].stickerDispensed
                                 && t.visitors[code].totalVisits >= cfg.minVisitsForSticker)
    ensures !r.1.Dispensed? ==> r.0 == t
    ensures r.1.Dispensed? ==>
              && r.1.totalVisits == t.visitors[code].totalVisits
              && r.0 == t.(visitors := t.visitors[code := t.visitors[code].(stickerDispensed := true,
                                                                           stickerDispensedTime := Some(now))])
  {
    if variant.RouteDispense? && code == "" then (t, MissingVisitorCode)
    else if variant.RouteDispense? && !adminConfirm then (t, ConfirmationRequired)
    else if code !in t.visitors then (t, VisitorNotFound)
    else
      var v := t.visitors[code];
      if v.stickerDispensed then (t, AlreadyDispensed)
      else if v.totalVisits < cfg.minVisitsForSticker then
        (t, NotEligible(v.totalVisits, cfg.minVisitsForSticker - v.totalVisits))
      else
        (t.(visitors := t.visitors[code := v.(stickerDispensed := true, stickerDispensedTime := Some(now))]),
         Dispensed(v.totalVisits))
  }

  /** A sticker is dispensed at most once: the second request is refused and changes nothing. */
  lemma DispenseOnce(t: Tables, variant: DispenseVariant, cfg: Settings.Config, code: Code, adminConfirm: bool, now: Timestamp, later: Timestamp)
    requires Dispense(t, variant, cfg, code, adminConfirm, now).1.Dispensed?
    ensures var t1 := Dispense(t, variant, cfg, code, adminConfirm, now).0;
      && t1.visitors[code].stickerDispensed
      && Dispense(t1, variant, cfg, code, adminConfirm, later) == (t1, AlreadyDispensed)
  {
  }

  /** Dispensing keeps the schema, the aggregates, and "dispensed only at or above the threshold". */
  lemma DispenseKeepsInvariants(t: Tables, variant: DispenseVariant, cfg: Settings.Config, code: Code, adminConfirm: bool, now: Timestamp)
    requires Valid(t) && AggregatesAgree(t) && DispensedOnlyWhenEligible(t, cfg.minVisitsForSticker)
    ensures var t' := Dispense(t, variant, cfg, code, adminConfirm, now).0;
      && Valid(t') && AggregatesAgree(t') && DispensedOnlyWhenEligible(t', cfg.minVisitsForSticker)
      && t'.visitors.Keys == t.visitors.Keys
      && forall c | c in t.visitors && t.visitors[c].stickerDispensed :: t'.visitors[c].stickerDispensed
  {
  }

  // ----- dashboard -----

  function ActiveVisitors(t: Tables): set<Code>
  {
    set c | c in t.visitors && t.visitors[c].totalVisits > 0
  }

  function EligibleVisitors(t: Tables, minVisits: nat): set<Code>
  {
    set c | c in t.visitors && t.visitors[c].totalVisits >= minVisits
  }

  function DispensedVisitors(t: Tables): set<Code>
  {
    set c | c in t.visitors && t.visitors[c].stickerDispensed
  }

  /** The `summary` counts of routes/admin.py `admin_dashboard`. */
  datatype Summary = Summary(
    totalQrCodesGenerated: nat,
    totalVisitors: nat,
    activeVisitors: nat,
    eligibleVisitors: nat,
    stickersDispensed: nat,
    totalVisits: nat)

  function Dashboard(t: Tables, minVisits: nat): (s: Summary)
    ensures s.totalQrCodesGenerated == |t.qrCodes| && s.totalVisitors == |t.visitors| && s.totalVisits == |t.visits|
    ensures s.activeVisitors <= s.totalVisitors && s.eligibleVisitors <= s.totalVisitors
    ensures s.stickersDispensed <= s.totalVisitors
    ensures minVisits >= 1 ==> s.eligibleVisitors <= s.activeVisitors
  {
    SubsetCard(ActiveVisitors(t), t.visitors.Keys);
    SubsetCard(EligibleVisitors(t, minVisits), t.visitors.Keys);
    SubsetCard(DispensedVisitors(t), t.visitors.Keys);
    EligibleAreActive(t, minVisits);
    Summary(|t.qrCodes|, |t.visitors|, |ActiveVisitors(t)|, |EligibleVisitors(t, minVisits)|,
            |DispensedVisitors(t)|, |t.visits|)
  }

  /** With a threshold of at least one, an eligible visitor has visited. */
  lemma EligibleAreActive(t: Tables, minVisits: nat)
    ensures minVisits >= 1 ==> |EligibleVisitors(t, minVisits)| <= |ActiveVisitors(t)|
  {
    if minVisits >= 1 {
      SubsetCard(EligibleVisitors(t, minVisits), ActiveVisitors(t));
    }
  }

  lemma SubsetCard<T>(a: set<T>, b: set<T>)
    requires a <= b
    ensures |a| <= |b|
  {
    assert b == a + (b - a);
  }

  /** dispensed <= eligible <= active <= all visitors, when the threshold is at least one. */
  lemma DashboardOrdered(t: Tables, minVisits: nat)
    requires minVisits >= 1 && DispensedOnlyWhenEligible(t, minVisits)
    ensures var s := Dashboard(t, minVisits);
      s.stickersDispensed <= s.eligibleVisitors <= s.activeVisitors <= s.totalVisitors
  {
    SubsetCard(DispensedVisitors(t), EligibleVisitors(t, minVisits));
    SubsetCard(EligibleVisitors(t, minVisits), ActiveVisitors(t));
    SubsetCard(ActiveVisitors(t), t.visitors.Keys);
  }

  /** In a consistent store, the active visitors are exactly the codes that occur in visit rows. */
  lemma ActiveVisitorsHaveVisits(t: Tables)
    requires AggregatesAgree(t)
    ensures ActiveVisitors(t) == set i | 0 <= i < |t.visits| :: t.visits[i].visitorQr
  {
    forall c | c in t.visitors { CountVisitsPositive(t.visits, c); }
  }
}
