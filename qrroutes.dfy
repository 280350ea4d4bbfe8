/**
 * routes/qr_routes.py: the `/api/check-qr` dispatch and the `/api/check-visitor`
 * threshold report. `record_visitor_visit` is not part of this model, so a
 * visit to record is returned as a request for it.
 */
module QrRoutes {
  import opened Schema
  import Text
  import Sorting
  import Helpers

  /** The threshold routes/qr_routes.py writes out, distinct from `MIN_VISITS_FOR_STICKER`. */
  const EnoughVisitsThreshold: nat := 10

  datatype CheckQrReply =
    | NoQrCode                              // 400 "No QR code provided"
    | RecordVisit(code: Code, team: Team)   // `record_visitor_visit(qr_code, team_id)`
    | ExistsOnly(codeExists: bool)              // {"exists": ...}

  /** `check_qr`: both fields stripped (a missing field is `''`), then dispatch. */
  function CheckQr(q: seq<QrRow>, rawCode: string, rawTeam: string): (r: CheckQrReply)
    ensures r.NoQrCode? <==> Text.Strip(rawCode) == ""
    ensures r.RecordVisit? <==> && Text.Strip(rawCode) != ""
                                && Helpers.CodeActive(q, Text.Strip(rawCode))
                                && Text.Strip(rawTeam) != ""
    ensures r.RecordVisit? ==> r.code == Text.Strip(rawCode) && r.team == Text.Strip(rawTeam)
    ensures r.ExistsOnly? ==> r.codeExists == Helpers.CodeActive(q, Text.Strip(rawCode))
  {
    var code := Text.Strip(rawCode);
    var team := Text.Strip(rawTeam);
    if code == "" then NoQrCode
    else
      var found := Helpers.CodeActive(q, code);
      if found && team != "" then RecordVisit(code, team) else ExistsOnly(found)
  }

  /** Surrounding whitespace never matters: a stripped request is answered the same way. */
  lemma CheckQrIgnoresSurroundingSpace(q: seq<QrRow>, rawCode: string, rawTeam: string)
    ensures CheckQr(q, Text.Strip(rawCode), Text.Strip(rawTeam)) == CheckQr(q, rawCode, rawTeam)
  {
    Text.StripIdempotent(rawCode);
    Text.StripIdempotent(rawTeam);
  }

  /** A code of whitespace only is rejected like a missing one. */
  lemma BlankCodeRejected(q: seq<QrRow>, rawCode: string, rawTeam: string)
    ensures CheckQr(q, rawCode, rawTeam).NoQrCode? <==> forall k | 0 <= k < |rawCode| :: Text.IsSpace(rawCode[k])
  {
    Text.StripEmptyIffBlank(rawCode);
  }

  datatype CheckVisitorReply =
    | NoVisitorCode                                     // 400 "No QR code provided"
    | VisitorNotFound                                   // 404 {"exists": False}
    | NotEnoughVisits(totalVisits: nat)                 // "Visitor has not completed 10 visits yet."
    | EnoughVisits(totalVisits: nat, log: seq<VisitRow>)

  /** `check_visitor`. */
  function CheckVisitor(t: Tables, rawCode: string): (r: CheckVisitorReply)
    ensures r.NoVisitorCode? <==> Text.Strip(rawCode) == ""
    ensures r.VisitorNotFound? <==> Text.Strip(rawCode) != "" && Text.Strip(rawCode) !in t.visitors
    ensures r.NotEnoughVisits? <==> && Text.Strip(rawCode) != "" && Text.Strip(rawCode) in t.visitors
                                    && t.visitors[Text.Strip(rawCode)].totalVisits < EnoughVisitsThreshold
    ensures r.NotEnoughVisits? || r.EnoughVisits? ==>
              r.totalVisits == t.visitors[Text.Strip(rawCode)].totalVisits
  {
    var code := Text.Strip(rawCode);
    if code == "" then NoVisitorCode
    else if code !in t.visitors then VisitorNotFound
    else
      var total := t.visitors[code].totalVisits;
      if total < EnoughVisitsThreshold then NotEnoughVisits(total)
      else EnoughVisits(total, VisitLogNewestFirst(t.visits, code))
  }

  /** `ORDER BY visit_time DESC`: the visitor's rows, each at least as recent as the next. */
  lemma LogNewestFirstSpec(v: seq<VisitRow>, code: Code)
    ensures var log := VisitLogNewestFirst(v, code);
      && (forall i, j | 0 <= i < j < |log| :: log[i].visitTime >= log[j].visitTime)
      && multiset(log) == multiset(VisitsOf(v, code))
  {
    var log := VisitLogNewestFirst(v, code);
    forall i, j | 0 <= i < j < |log| ensures log[i].visitTime >= log[j].visitTime {
      assert -(log[i].visitTime as int) <= -(log[j].visitTime as int);
    }
  }

  /** The full log comes with enough visits: all of the visitor's rows, newest first. */
  lemma EnoughVisitsLog(t: Tables, rawCode: string)
    requires CheckVisitor(t, rawCode).EnoughVisits?
    ensures var r := CheckVisitor(t, rawCode);
      && r.totalVisits >= EnoughVisitsThreshold
      && (forall i, j | 0 <= i < j < |r.log| :: r.log[i].visitTime >= r.log[j].visitTime)
      && multiset(r.log) == multiset(VisitsOf(t.visits, Text.Strip(rawCode)))
  {
    var code := Text.Strip(rawCode);
    assert CheckVisitor(t, rawCode).log == VisitLogNewestFirst(t.visits, code);
    LogNewestFirstSpec(t.visits, code);
  }

  /** In a consistent store the log of an accepted visitor has at least ten rows. */
  lemma EnoughVisitsLogLength(t: Tables, rawCode: string)
    requires AggregatesAgree(t) && CheckVisitor(t, rawCode).EnoughVisits?
    ensures |CheckVisitor(t, rawCode).log| >= EnoughVisitsThreshold
  {
    var code := Text.Strip(rawCode);
    EnoughVisitsLog(t, rawCode);
    CountMatchesVisitsOf(t.visits, code);
  }

  lemma {:induction false} CountMatchesVisitsOf(v: seq<VisitRow>, code: Code)
    ensures |VisitsOf(v, code)| == CountVisits(v, code)
  {
    if v != [] {
      CountMatchesVisitsOf(v[1..], code);
      CountVisitsCons(v, code);
    }
  }

  lemma {:induction false} CountVisitsCons(v: seq<VisitRow>, code: Code)
    requires v != []
    ensures CountVisits(v, code) == (if v[0].visitorQr == code then 1 else 0) + CountVisits(v[1..], code)
    decreases |v|
  {
    if |v| > 1 {
      var init := v[..|v| - 1];
      assert init[1..] == v[1..][..|v[1..]| - 1];
      CountVisitsCons(init, code);
      assert init[0] == v[0];
    } else {
      assert v[..0] == [] && v[1..] == [];
    }
  }
}
