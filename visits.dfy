/**
 * The visit recorder: `team_scan` in app.py and in routes/team.py, and
 * `VisitorVisit.create_visit` in database/models.py. A team scans a visitor's
 * code; the first scan of a (visitor, team) pair adds a visit row and bumps the
 * visitor's counter, every later one is a duplicate that writes nothing.
 */
module Visits {
  import opened Wrappers
  import opened Schema
  import Settings

  /** The three versions of the recorder in the repository. */
  datatype ScanVariant =
    | AppScan    // app.py: the UPDATE leaves first_visit alone, a new visitor row gets no timestamps
    | RouteScan  // routes/team.py: the UPDATE sets first_visit = COALESCE(first_visit, now)
    | ModelScan  // database/models.py: no empty-code check; the reply carries the new visit id
  {
    predicate RejectsEmptyCode() { !ModelScan? }
    predicate CoalescesFirstVisit() { !AppScan? }
    predicate StampsNewVisitor() { !AppScan? }
  }

  datatype ScanReply =
    | InvalidTeam                     // 400 (ValueError in create_visit)
    | MissingVisitorCode              // 400 "visitorQR is required"
    | Duplicate(visitId: Option<nat>) // 200 with 'duplicate': True
    | Recorded(visitId: Option<nat>, totalVisits: nat, visitsRemaining: nat, eligibleForSticker: bool)

  /** `max(0, MIN_VISITS_FOR_STICKER - total)`. */
  function VisitsRemaining(minVisits: nat, total: nat): (r: nat)
    ensures total + r >= minVisits
    ensures r == 0 || total + r == minVisits
    ensures r == 0 <==> total >= minVisits
  {
    if minVisits > total then minVisits - total else 0
  }

  /** The `visitors` row for `code` after a new visit was inserted. */
  function VisitedRow(t: Tables, variant: ScanVariant, code: Code, now: Timestamp): (v: VisitorRow)
    ensures v.totalVisits == (if code in t.visitors then t.visitors[code].totalVisits else 0) + 1
    ensures v.stickerDispensed == (code in t.visitors && t.visitors[code].stickerDispensed)
    ensures code in t.visitors ==> v.lastVisit == Some(now)
    ensures code in t.visitors && t.visitors[code].firstVisit.Some? ==> v.firstVisit == t.visitors[code].firstVisit
    ensures code !in t.visitors ==> (v.firstVisit.Some? <==> variant.StampsNewVisitor())
  {
    if code in t.visitors then
      var v := t.visitors[code];
      v.(totalVisits := v.totalVisits + 1,
         lastVisit := Some(now),
         firstVisit := if variant.CoalescesFirstVisit() && v.firstVisit.None? then Some(now) else v.firstVisit)
    else if variant.StampsNewVisitor() then
      DefaultVisitorRow(now).(totalVisits := 1, firstVisit := Some(now), lastVisit := Some(now))
    else
      DefaultVisitorRow(now).(totalVisits := 1)
  }

  predicate Accepted(variant: ScanVariant, cfg: Settings.Config, code: Code, team: Team)
  {
    team in cfg.allowedTeams && !(variant.RejectsEmptyCode() && code == "")
  }

  /** What one scan of `code` by `team` does to the store and replies. */
  function RecordVisit(t: Tables, variant: ScanVariant, cfg: Settings.Config, code: Code, team: Team, now: Timestamp)
    : (r: (Tables, ScanReply))
    ensures r.1.InvalidTeam? <==> team !in cfg.allowedTeams
    ensures r.1.MissingVisitorCode? <==> team in cfg.allowedTeams && variant.RejectsEmptyCode() && code == ""
    ensures r.1.Duplicate? <==> Accepted(variant, cfg, code, team) && HasVisit(t.visits, code, team)
    ensures r.1.Recorded? <==> Accepted(variant, cfg, code, team) && !HasVisit(t.visits, code, team)
    ensures !r.1.Recorded? ==> r.0 == t
    ensures r.1.Duplicate? ==> exists i | 0 <= i < |t.visits| ::
              t.visits[i].visitorQr == code && t.visits[i].teamName == team && r.1.visitId == Some(t.visits[i].id)
    ensures r.1.Recorded? ==>
              && r.0.visits == t.visits + [VisitRow(t.nextVisitId, code, team, now)]
              && r.0.qrCodes == t.qrCodes
              && r.0.visitors.Keys == t.visitors.Keys + {code}
              && (forall c | c in t.visitors && c != code :: r.0.visitors[c] == t.visitors[c])
              && r.1.totalVisits == r.0.visitors[code].totalVisits
              && r.1.totalVisits == (if code in t.visitors then t.visitors[code].totalVisits + 1 else 1)
              && r.1.visitsRemaining == VisitsRemaining(cfg.minVisitsForSticker, r.1.totalVisits)
              && (r.1.eligibleForSticker <==> r.1.totalVisits >= cfg.minVisitsForSticker)
              && (r.1.visitId.Some? <==> variant.ModelScan?)
  {
    if team !in cfg.allowedTeams then (t, InvalidTeam)
    else if variant.RejectsEmptyCode() && code == "" then (t, MissingVisitorCode)
    else match FindVisit(t.visits, code, team)
      case Some(i) => (t, Duplicate(Some(t.visits[i].id)))
      case None =>
        var id := t.nextVisitId;
        var row := VisitedRow(t, variant, code, now);
        var t' := t.(visits := t.visits + [VisitRow(id, code, team, now)],
                     visitors := t.visitors[code := row],
                     nextVisitId := id + 1);
        (t', Recorded(if variant.ModelScan? then Some(id) else None,
                      row.totalVisits,
                      VisitsRemaining(cfg.minVisitsForSticker, row.totalVisits),
                      row.totalVisits >= cfg.minVisitsForSticker))
  }

  /** Recording a visit keeps the UNIQUE and AUTOINCREMENT constraints. */
  lemma RecordVisitKeepsValid(t: Tables, variant: ScanVariant, cfg: Settings.Config, code: Code, team: Team, now: Timestamp)
    requires Valid(t)
    ensures Valid(RecordVisit(t, variant, cfg, code, team, now).0)
  {
    var r := RecordVisit(t, variant, cfg, code, team, now);
    if r.1.Recorded? {
      var v := r.0.visits;
      assert forall i | 0 <= i < |t.visits| :: v[i] == t.visits[i];
      assert forall i | 0 <= i < |t.visits| :: !(v[i].visitorQr == code && v[i].teamName == team);
    }
  }

  /** Recording a visit keeps every visitor's counter equal to its number of visit rows. */
  lemma RecordVisitKeepsAggregates(t: Tables, variant: ScanVariant, cfg: Settings.Config, code: Code, team: Team, now: Timestamp)
    requires AggregatesAgree(t)
    ensures AggregatesAgree(RecordVisit(t, variant, cfg, code, team, now).0)
  {
    var r := RecordVisit(t, variant, cfg, code, team, now);
    if r.1.Recorded? {
      var row := VisitRow(t.nextVisitId, code, team, now);
      forall c | c in r.0.visitors
        ensures r.0.visitors[c].totalVisits == CountVisits(r.0.visits, c)
      {
        CountVisitsAppend(t.visits, row, c);
        if c == code && code !in t.visitors {
          CountVisitsPositive(t.visits, code);
        }
      }
    }
  }

  /** A scan never clears a dispensed flag and never lowers a counter. */
  lemma RecordVisitKeepsDispensedEligible(t: Tables, variant: ScanVariant, cfg: Settings.Config, code: Code, team: Team, now: Timestamp)
    requires DispensedOnlyWhenEligible(t, cfg.minVisitsForSticker)
    ensures var t' := RecordVisit(t, variant, cfg, code, team, now).0;
      && DispensedOnlyWhenEligible(t', cfg.minVisitsForSticker)
      && forall c | c in t.visitors :: c in t'.visitors
           && t'.visitors[c].totalVisits >= t.visitors[c].totalVisits
           && (t.visitors[c].stickerDispensed ==> t'.visitors[c].stickerDispensed)
  {
  }

  /**
   * A scan never overwrites a first_visit that is already set; a new visit
   * stamps last_visit of a known visitor, and both timestamps of a new visitor
   * except in app.py, whose INSERT leaves them NULL.
   */
  lemma RecordVisitFirstVisit(t: Tables, variant: ScanVariant, cfg: Settings.Config, code: Code, team: Team, now: Timestamp)
    ensures var r := RecordVisit(t, variant, cfg, code, team, now);
      && (forall c | c in t.visitors && t.visitors[c].firstVisit.Some? :: r.0.visitors[c].firstVisit == t.visitors[c].firstVisit)
      && (r.1.Recorded? && code in t.visitors ==> r.0.visitors[code].lastVisit == Some(now))
      && (r.1.Recorded? && code !in t.visitors ==>
            if variant.StampsNewVisitor()
            then r.0.visitors[code].firstVisit == Some(now) && r.0.visitors[code].lastVisit == Some(now)
            else r.0.visitors[code].firstVisit.None? && r.0.visitors[code].lastVisit.None?)
      && (r.1.Recorded? && variant.CoalescesFirstVisit() ==> r.0.visitors[code].firstVisit.Some?)
  {
  }

  /**
   * Scanning the same pair again is a duplicate that changes nothing: however
   * often a team scans a visitor, the counter goes up by exactly one.
   */
  lemma ScanTwiceIsDuplicate(t: Tables, variant: ScanVariant, cfg: Settings.Config, code: Code, team: Team, now: Timestamp, later: Timestamp)
    requires Accepted(variant, cfg, code, team)
    requires AggregatesAgree(t)
    ensures var (t1, first) := RecordVisit(t, variant, cfg, code, team, now);
      var (t2, second) := RecordVisit(t1, variant, cfg, code, team, later);
      && (first.Recorded? || first.Duplicate?)
      && second.Duplicate? && t2 == t1
      && code in t1.visitors
      && t1.visitors[code].totalVisits == (if first.Recorded? then (if code in t.visitors then t.visitors[code].totalVisits + 1 else 1) else t.visitors[code].totalVisits)
  {
    var (t1, first) := RecordVisit(t, variant, cfg, code, team, now);
    assert HasVisit(t1.visits, code, team) by {
      if first.Recorded? {
        assert t1.visits[|t.visits|] == VisitRow(t.nextVisitId, code, team, now);
      }
    }
    if first.Duplicate? {
      var i :| 0 <= i < |t.visits| && t.visits[i].visitorQr == code && t.visits[i].teamName == team;
      assert t.visits[i].visitorQr in t.visitors;
    }
  }

  /** The number of distinct teams that have visit rows for `code`. */
  function TeamsVisited(v: seq<VisitRow>, code: Code): set<Team>
  {
    set i | 0 <= i < |v| && v[i].visitorQr == code :: v[i].teamName
  }

  /** Under `UNIQUE(visitor_qr, team_name)`, a visitor's visit rows are its distinct teams. */
  lemma {:induction false} CountIsDistinctTeams(v: seq<VisitRow>, code: Code)
    requires UniqueVisitPairs(v)
    ensures CountVisits(v, code) == |TeamsVisited(v, code)|
  {
    if v != [] {
      var p := v[..|v| - 1];
      assert UniqueVisitPairs(p);
      CountIsDistinctTeams(p, code);
      TeamsVisitedSnoc(v, code);
    }
  }

  /** The last row adds its team, and under the constraint that team is new. */
  lemma TeamsVisitedSnoc(v: seq<VisitRow>, code: Code)
    requires v != [] && UniqueVisitPairs(v)
    ensures var p, last := v[..|v| - 1], v[|v| - 1];
      && (last.visitorQr == code ==> TeamsVisited(v, code) == TeamsVisited(p, code) + {last.teamName}
                                     && last.teamName !in TeamsVisited(p, code))
      && (last.visitorQr != code ==> TeamsVisited(v, code) == TeamsVisited(p, code))
  {
    var p, last := v[..|v| - 1], v[|v| - 1];
    assert forall i | 0 <= i < |p| :: p[i] == v[i];
    if last.visitorQr == code {
      forall i | 0 <= i < |p| && p[i].visitorQr == code ensures p[i].teamName != last.teamName {
        assert !(v[i].visitorQr == v[|v| - 1].visitorQr && v[i].teamName == v[|v| - 1].teamName);
      }
    }
  }

  /** In a consistent store, `total_visits` counts the distinct teams the visitor has seen. */
  lemma TotalIsDistinctTeams(t: Tables, code: Code)
    requires Valid(t) && AggregatesAgree(t) && code in t.visitors
    ensures t.visitors[code].totalVisits == |TeamsVisited(t.visits, code)|
  {
    CountIsDistinctTeams(t.visits, code);
  }
}
