/**
 * The visitor progress report: `visitor_status` of routes/visitor.py and
 * app.py, and `Visitor.get_visitor_status` of database/models.py.
 */
module Status {
  import opened Schema
  import Settings
  import Visits
  import Sorting

  /** `[visit['team_name'] for visit in visits]`. */
  function TeamsOf(v: seq<VisitRow>): (ts: seq<Team>)
    ensures |ts| == |v|
    ensures forall i | 0 <= i < |v| :: ts[i] == v[i].teamName
  {
    if v == [] then [] else [v[0].teamName] + TeamsOf(v[1..])
  }

  /** `a` is `b` with some elements dropped, the rest in their order. */
  predicate Subsequence(a: seq<Team>, b: seq<Team>)
  {
    if a == [] then true
    else if b == [] then false
    else if a[0] == b[0] then Subsequence(a[1..], b[1..])
    else Subsequence(a, b[1..])
  }

  /** `[team for team in ALLOWED_TEAMS if team not in visited_teams]`. */
  function NotVisitedTeams(allowed: seq<Team>, visited: seq<Team>): (r: seq<Team>)
    ensures forall x :: x in r <==> x in allowed && x !in visited
    ensures |r| <= |allowed|
  {
    if allowed == [] then []
    else if allowed[0] in visited then NotVisitedTeams(allowed[1..], visited)
    else [allowed[0]] + NotVisitedTeams(allowed[1..], visited)
  }

  /** The filter keeps the configured order of the teams. */
  lemma {:induction false} NotVisitedKeepsOrder(allowed: seq<Team>, visited: seq<Team>)
    ensures Subsequence(NotVisitedTeams(allowed, visited), allowed)
  {
    if allowed != [] {
      NotVisitedKeepsOrder(allowed[1..], visited);
      var rest := NotVisitedTeams(allowed[1..], visited);
      if allowed[0] !in visited {
        assert NotVisitedTeams(allowed, visited) == [allowed[0]] + rest;
        assert ([allowed[0]] + rest)[1..] == rest;
      } else {
        SubsequenceOfTail(rest, allowed);
      }
    }
  }

  lemma {:induction false} SubsequenceOfTail(a: seq<Team>, b: seq<Team>)
    requires b != [] && Subsequence(a, b[1..])
    ensures Subsequence(a, b)
  {
    if a != [] && a[0] == b[0] {
      SubsequenceDropHead(a, b[1..]);
    }
  }

  lemma {:induction false} SubsequenceDropHead(a: seq<Team>, b: seq<Team>)
    requires a != [] && Subsequence(a, b)
    ensures Subsequence(a[1..], b)
  {
    if b != [] {
      if a[0] == b[0] {
        // Subsequence(a[1..], b[1..]) holds, and a subsequence of the tail is one of b
        SubsequenceOfTail(a[1..], b);
      } else {
        SubsequenceDropHead(a, b[1..]);
        SubsequenceOfTail(a[1..], b);
      }
    }
  }

  /** With distinct configured teams, the not-visited list has no repeats. */
  lemma {:induction false} NotVisitedDistinct(allowed: seq<Team>, visited: seq<Team>)
    requires Distinct(allowed)
    ensures Distinct(NotVisitedTeams(allowed, visited))
  {
    if allowed != [] {
      var tail := allowed[1..];
      assert Distinct(tail) by {
        forall i, j | 0 <= i < j < |tail| ensures tail[i] != tail[j] {
          assert tail[i] == allowed[i + 1] && tail[j] == allowed[j + 1];
        }
      }
      NotVisitedDistinct(tail, visited);
      if allowed[0] !in visited {
        var rest := NotVisitedTeams(tail, visited);
        var r := [allowed[0]] + rest;
        forall k | 0 <= k < |tail| ensures tail[k] != allowed[0] {
          assert tail[k] == allowed[k + 1];
        }
        forall j | 0 <= j < |rest| ensures rest[j] != allowed[0] {
          assert rest[j] in rest;
        }
        forall i, j | 0 <= i < j < |r| ensures r[i] != r[j] {
          assert r[j] == rest[j - 1];
          if i > 0 { assert r[i] == rest[i - 1]; }
        }
      }
    }
  }

  /** ... and so has one entry per configured team not yet visited. */
  lemma NotVisitedCount(allowed: seq<Team>, visited: seq<Team>)
    requires Distinct(allowed)
    ensures |NotVisitedTeams(allowed, visited)| == |set x | x in allowed && x !in visited|
  {
    var r := NotVisitedTeams(allowed, visited);
    NotVisitedDistinct(allowed, visited);
    DistinctCard(r);
    assert (set x | x in r) == (set x | x in allowed && x !in visited);
  }

  /** All visit rows name a configured team (every scan path checks the team first). */
  predicate VisitsToAllowedTeams(t: Tables, allowed: seq<Team>)
  {
    forall i | 0 <= i < |t.visits| :: t.visits[i].teamName in allowed
  }

  lemma RecordVisitKeepsAllowedTeams(t: Tables, variant: Visits.ScanVariant, cfg: Settings.Config, code: Code, team: Team, now: Timestamp)
    requires VisitsToAllowedTeams(t, cfg.allowedTeams)
    ensures VisitsToAllowedTeams(Visits.RecordVisit(t, variant, cfg, code, team, now).0, cfg.allowedTeams)
  {
  }

  datatype StatusReply =
    | NotFound   // 404 "Visitor not found"
    | Found(
        totalVisits: nat,
        requiredVisits: nat,
        visitsRemaining: nat,
        eligibleForSticker: bool,
        stickerDispensed: bool,
        visitedTeams: seq<Team>,
        notVisitedTeams: seq<Team>,
        visits: seq<VisitRow>)

  /** The report on one visitor: counters from the visitors row, teams from the visit rows in time order. */
  function VisitorStatus(t: Tables, cfg: Settings.Config, code: Code): (r: StatusReply)
    ensures r.NotFound? <==> code !in t.visitors
    ensures r.Found? ==>
      var v := t.visitors[code];
      && r.totalVisits == v.totalVisits
      && r.requiredVisits == cfg.minVisitsForSticker
      && r.visitsRemaining == Visits.VisitsRemaining(cfg.minVisitsForSticker, v.totalVisits)
      && (r.eligibleForSticker <==> v.totalVisits >= cfg.minVisitsForSticker)
      && r.stickerDispensed == v.stickerDispensed
      && Sorting.SortedBy(r.visits, (x: VisitRow) => x.visitTime)
      && multiset(r.visits) == multiset(VisitsOf(t.visits, code))
      && r.visitedTeams == TeamsOf(r.visits)
      && (forall x :: x in r.notVisitedTeams <==> x in cfg.allowedTeams && x !in r.visitedTeams)
  {
    if code !in t.visitors then NotFound
    else
      var v := t.visitors[code];
      var visits := SortedByTime(VisitsOf(t.visits, code));
      var visited := TeamsOf(visits);
      Found(v.totalVisits, cfg.minVisitsForSticker,
            Visits.VisitsRemaining(cfg.minVisitsForSticker, v.totalVisits),
            v.totalVisits >= cfg.minVisitsForSticker, v.stickerDispensed,
            visited, NotVisitedTeams(cfg.allowedTeams, visited), visits)
  }

  /** Reordering the rows does not change which teams they name. */
  lemma TeamsOfPermutation(a: seq<VisitRow>, b: seq<VisitRow>, x: Team)
    requires multiset(a) == multiset(b)
    ensures x in TeamsOf(a) ==> x in TeamsOf(b)
  {
    if x in TeamsOf(a) {
      var i :| 0 <= i < |a| && TeamsOf(a)[i] == x;
      assert a[i] in multiset(b);
      var j :| 0 <= j < |b| && b[j] == a[i];
      assert TeamsOf(b)[j] == x;
    }
  }

  lemma TeamsOfVisitsOf(v: seq<VisitRow>, code: Code, x: Team)
    ensures x in TeamsOf(VisitsOf(v, code)) <==> x in Visits.TeamsVisited(v, code)
  {
    if x in TeamsOf(VisitsOf(v, code)) {
      TeamOfOwnVisitIsVisited(v, code, x);
    }
    if x in Visits.TeamsVisited(v, code) {
      VisitedTeamIsTeamOfOwnVisit(v, code, x);
    }
  }

  lemma TeamOfOwnVisitIsVisited(v: seq<VisitRow>, code: Code, x: Team)
    requires x in TeamsOf(VisitsOf(v, code))
    ensures x in Visits.TeamsVisited(v, code)
  {
    var own := VisitsOf(v, code);
    var i :| 0 <= i < |own| && TeamsOf(own)[i] == x;
    assert own[i] in own;
    var k :| 0 <= k < |v| && v[k] == own[i];
  }

  lemma VisitedTeamIsTeamOfOwnVisit(v: seq<VisitRow>, code: Code, x: Team)
    requires x in Visits.TeamsVisited(v, code)
    ensures x in TeamsOf(VisitsOf(v, code))
  {
    var own := VisitsOf(v, code);
    var k :| 0 <= k < |v| && v[k].visitorQr == code && v[k].teamName == x;
    assert v[k] in own;
    var i :| 0 <= i < |own| && own[i] == v[k];
    assert TeamsOf(own)[i] == x;
  }

  /** The visited teams are exactly the teams of the visitor's rows. */
  lemma VisitedTeamsAreTeamsVisited(t: Tables, cfg: Settings.Config, code: Code)
    requires code in t.visitors
    ensures var r := VisitorStatus(t, cfg, code);
      forall x :: x in r.visitedTeams <==> x in Visits.TeamsVisited(t.visits, code)
  {
    var own := VisitsOf(t.visits, code);
    var sorted := SortedByTime(own);
    assert VisitorStatus(t, cfg, code).visitedTeams == TeamsOf(sorted);
    forall x ensures x in TeamsOf(sorted) <==> x in Visits.TeamsVisited(t.visits, code) {
      TeamsOfPermutation(sorted, own, x);
      TeamsOfPermutation(own, sorted, x);
      TeamsOfVisitsOf(t.visits, code, x);
    }
  }

  /**
   * In a consistent store whose rows name configured, distinct teams, the
   * not-visited list has exactly |ALLOWED_TEAMS| - total_visits entries.
   */
  lemma NotVisitedComplementsTotal(t: Tables, cfg: Settings.Config, code: Code)
    requires Valid(t) && AggregatesAgree(t) && code in t.visitors
    requires Distinct(cfg.allowedTeams) && VisitsToAllowedTeams(t, cfg.allowedTeams)
    ensures var r := VisitorStatus(t, cfg, code);
      |r.notVisitedTeams| + r.totalVisits == |cfg.allowedTeams|
  {
    var r := VisitorStatus(t, cfg, code);
    var visitedSet := Visits.TeamsVisited(t.visits, code);
    VisitedTeamsAreTeamsVisited(t, cfg, code);
    Visits.TotalIsDistinctTeams(t, code);
    NotVisitedCount(cfg.allowedTeams, r.visitedTeams);
    assert forall x | x in visitedSet :: x in cfg.allowedTeams;
    ComplementCard(cfg.allowedTeams, r.visitedTeams, visitedSet);
  }

  /** The allowed teams split into the visited ones and the rest. */
  lemma ComplementCard(allowed: seq<Team>, visited: seq<Team>, vs: set<Team>)
    requires Distinct(allowed)
    requires forall x :: x in visited <==> x in vs
    requires forall x | x in vs :: x in allowed
    ensures |set x | x in allowed && x !in visited| + |vs| == |allowed|
  {
    var allowedSet := set x | x in allowed;
    var notSet := set x | x in allowed && x !in visited;
    assert notSet == allowedSet - vs;
    assert allowedSet == notSet + vs;
    DistinctCard(allowed);
  }

  lemma {:induction false} DistinctCard(s: seq<string>)
    requires Distinct(s)
    ensures |set x | x in s| == |s|
  {
    if s != [] {
      var tail := s[1..];
      assert Distinct(tail) by {
        forall i, j | 0 <= i < j < |tail| ensures tail[i] != tail[j] {
          assert tail[i] == s[i + 1] && tail[j] == s[j + 1];
        }
      }
      DistinctCard(tail);
      forall k | 0 <= k < |tail| ensures tail[k] != s[0] {
        assert tail[k] == s[k + 1];
      }
      assert (set x | x in s) == (set x | x in tail) + {s[0]} by {
        assert s == [s[0]] + tail;
      }
    }
  }

  /** The thirteen teams of config.py are distinct. */
  lemma DefaultTeamsDistinct()
    ensures Distinct(Settings.Default.allowedTeams) && |Settings.Default.allowedTeams| == 13
  {
  }
}
