/**
 * The three tables of database/database.py as values, the SQL statements the
 * handlers issue as functions on them, and the constraints the schema declares.
 * Timestamps are abstract clock readings; images are the opaque base64 text of
 * a rendered QR code.
 */
module Schema {
  import opened Wrappers
  import Sorting

  type Code = string
  type Team = string
  type Timestamp = nat
  type Image = string

  /** A row of `visitor_visits`. */
  datatype VisitRow = VisitRow(id: nat, visitorQr: Code, teamName: Team, visitTime: Timestamp)

  /** A row of `visitors`; the key `visitor_qr` is the map key in `Tables.visitors`. */
  datatype VisitorRow = VisitorRow(
    qrCodeImage: Option<Image>,
    generatedTime: Timestamp,
    firstVisit: Option<Timestamp>,
    lastVisit: Option<Timestamp>,
    totalVisits: nat,
    stickerDispensed: bool,
    stickerDispensedTime: Option<Timestamp>,
    isActive: bool)

  /** A row of `qr_codes`; `deletedTime == None` means the code is active. */
  datatype QrRow = QrRow(
    id: nat,
    qrCode: Code,
    qrImage: Option<Image>,
    generatedTime: Timestamp,
    isPrinted: bool,
    isDistributed: bool,
    deletedTime: Option<Timestamp>,
    notes: Option<string>)

  /**
   * The store. Rows of the two AUTOINCREMENT tables are kept in insertion
   * order; `nextVisitId` and `nextQrId` are the next ids AUTOINCREMENT hands out.
   */
  datatype Tables = Tables(
    visits: seq<VisitRow>,
    visitors: map<Code, VisitorRow>,
    qrCodes: seq<QrRow>,
    nextVisitId: nat,
    nextQrId: nat)

  /** `sqlite3.IntegrityError`: a UNIQUE or PRIMARY KEY constraint failed. */
  datatype DbError = IntegrityError

  /** The store `init_db` creates: three empty tables. */
  const EmptyTables := Tables([], map[], [], 1, 1)

  /** A `visitors` row holding only the column defaults of the schema. */
  function DefaultVisitorRow(now: Timestamp): (v: VisitorRow)
    ensures v.totalVisits == 0 && v.generatedTime == now && v.isActive
    ensures !v.stickerDispensed && v.stickerDispensedTime.None?
    ensures v.firstVisit.None? && v.lastVisit.None? && v.qrCodeImage.None?
  {
    VisitorRow(None, now, None, None, 0, false, None, true)
  }

  /** A `qr_codes` row inserted with only `qr_code` and `qr_image_base64`. */
  function NewQrRow(id: nat, code: Code, image: Image, now: Timestamp): (r: QrRow)
    ensures r.id == id && r.qrCode == code && r.qrImage == Some(image) && r.generatedTime == now
    ensures !r.isPrinted && !r.isDistributed && r.deletedTime.None? && r.notes.None?
  {
    QrRow(id, code, Some(image), now, false, false, None, None)
  }

  // ----- schema constraints -----

  /** No string occurs twice. */
  predicate Distinct(s: seq<string>)
  {
    forall i, j | 0 <= i < j < |s| :: s[i] != s[j]
  }

  /** `UNIQUE(visitor_qr, team_name)` on `visitor_visits`. */
  predicate UniqueVisitPairs(v: seq<VisitRow>)
  {
    forall i, j | 0 <= i < j < |v| ::
      !(v[i].visitorQr == v[j].visitorQr && v[i].teamName == v[j].teamName)
  }

  /** `qr_code TEXT UNIQUE` on `qr_codes`, active and soft-deleted rows alike. */
  predicate UniqueQrCodes(q: seq<QrRow>)
  {
    forall i, j | 0 <= i < j < |q| :: q[i].qrCode != q[j].qrCode
  }

  /** AUTOINCREMENT: ids grow with insertion order and stay below the next id. */
  predicate VisitIdsIncreasing(t: Tables)
  {
    && (forall i, j | 0 <= i < j < |t.visits| :: t.visits[i].id < t.visits[j].id)
    && (forall i | 0 <= i < |t.visits| :: t.visits[i].id < t.nextVisitId)
  }

  predicate QrIdsIncreasing(t: Tables)
  {
    && (forall i, j | 0 <= i < j < |t.qrCodes| :: t.qrCodes[i].id < t.qrCodes[j].id)
    && (forall i | 0 <= i < |t.qrCodes| :: t.qrCodes[i].id < t.nextQrId)
  }

  /** Everything the schema of database/database.py guarantees about a store. */
  predicate Valid(t: Tables)
  {
    UniqueVisitPairs(t.visits) && UniqueQrCodes(t.qrCodes) && VisitIdsIncreasing(t) && QrIdsIncreasing(t)
  }

  // ----- reads -----

  predicate HasVisit(v: seq<VisitRow>, code: Code, team: Team)
  {
    exists i | 0 <= i < |v| :: v[i].visitorQr == code && v[i].teamName == team
  }

  /** `SELECT id FROM visitor_visits WHERE visitor_qr = ? AND team_name = ?`, first match. */
  function FindVisit(v: seq<VisitRow>, code: Code, team: Team): (r: Option<nat>)
    ensures r.None? <==> !HasVisit(v, code, team)
    ensures r.Some? ==> r.value < |v| && v[r.value].visitorQr == code && v[r.value].teamName == team
  {
    if v == [] then None
    else if v[0].visitorQr == code && v[0].teamName == team then Some(0)
    else match FindVisit(v[1..], code, team)
      case None => assert forall i | 1 <= i < |v| :: v[i] == v[1..][i - 1]; None
      case Some(i) => Some(i + 1)
  }

  predicate CodeInUse(q: seq<QrRow>, code: Code)
  {
    exists i | 0 <= i < |q| :: q[i].qrCode == code
  }

  /** `SELECT qr_code FROM qr_codes`, as a set. */
  function AllCodes(q: seq<QrRow>): (s: set<Code>)
    ensures forall c :: c in s <==> CodeInUse(q, c)
  {
    set i | 0 <= i < |q| :: q[i].qrCode
  }

  /** The visit rows of one visitor, in table order (`WHERE visitor_qr = ?`). */
  function VisitsOf(v: seq<VisitRow>, code: Code): (r: seq<VisitRow>)
    ensures forall x :: x in r <==> x in v && x.visitorQr == code
    ensures |r| <= |v|
  {
    if v == [] then []
    else (if v[0].visitorQr == code then [v[0]] else []) + VisitsOf(v[1..], code)
  }

  /** The number of visit rows of one visitor. */
  function CountVisits(v: seq<VisitRow>, code: Code): nat
  {
    if v == [] then 0
    else CountVisits(v[..|v| - 1], code) + (if v[|v| - 1].visitorQr == code then 1 else 0)
  }

  lemma {:induction false} CountVisitsAppend(v: seq<VisitRow>, r: VisitRow, code: Code)
    ensures CountVisits(v + [r], code) == CountVisits(v, code) + (if r.visitorQr == code then 1 else 0)
  {
    assert (v + [r])[..|v + [r]| - 1] == v;
  }

  /** A visitor has visit rows exactly when some row carries its code. */
  lemma {:induction false} CountVisitsPositive(v: seq<VisitRow>, code: Code)
    ensures CountVisits(v, code) > 0 <==> exists i | 0 <= i < |v| :: v[i].visitorQr == code
  {
    if v != [] {
      var p := v[..|v| - 1];
      CountVisitsPositive(p, code);
      assert forall i | 0 <= i < |p| :: p[i] == v[i];
    }
  }

  // ----- writes: one function per SQL statement -----

  /** `INSERT INTO visitor_visits (visitor_qr, team_name) VALUES (?, ?)`. */
  function InsertVisit(t: Tables, code: Code, team: Team, now: Timestamp): (r: Result<Tables, DbError>)
    ensures r.Err? <==> HasVisit(t.visits, code, team)
  {
    if HasVisit(t.visits, code, team) then Err(IntegrityError)
    else Ok(t.(visits := t.visits + [VisitRow(t.nextVisitId, code, team, now)],
               nextVisitId := t.nextVisitId + 1))
  }

  /** `INSERT INTO visitors (...)`: fails on the primary key `visitor_qr`. */
  function InsertVisitor(t: Tables, code: Code, row: VisitorRow): (r: Result<Tables, DbError>)
    ensures r.Err? <==> code in t.visitors
  {
    if code in t.visitors then Err(IntegrityError)
    else Ok(t.(visitors := t.visitors[code := row]))
  }

  /** `INSERT INTO qr_codes (qr_code, qr_image_base64) VALUES (?, ?)`. */
  function InsertQr(t: Tables, code: Code, image: Image, now: Timestamp): (r: Result<Tables, DbError>)
    ensures r.Err? <==> CodeInUse(t.qrCodes, code)
  {
    if CodeInUse(t.qrCodes, code) then Err(IntegrityError)
    else Ok(t.(qrCodes := t.qrCodes + [NewQrRow(t.nextQrId, code, image, now)],
               nextQrId := t.nextQrId + 1))
  }

  /** A successful insert of a visit row keeps every schema constraint. */
  lemma InsertVisitKeepsValid(t: Tables, code: Code, team: Team, now: Timestamp)
    requires Valid(t) && InsertVisit(t, code, team, now).Ok?
    ensures Valid(InsertVisit(t, code, team, now).value)
  {
    var v' := InsertVisit(t, code, team, now).value.visits;
    assert forall i | 0 <= i < |t.visits| :: v'[i] == t.visits[i];
  }

  /** A successful insert of a QR row keeps every schema constraint. */
  lemma InsertQrKeepsValid(t: Tables, code: Code, image: Image, now: Timestamp)
    requires Valid(t) && InsertQr(t, code, image, now).Ok?
    ensures Valid(InsertQr(t, code, image, now).value)
  {
    var q' := InsertQr(t, code, image, now).value.qrCodes;
    assert forall i | 0 <= i < |t.qrCodes| :: q'[i] == t.qrCodes[i];
  }

  /** `get_visitor_visit_log`: the visitor's (team, time) pairs, `ORDER BY visit_time DESC`; equal times keep table order. */
  function VisitLogNewestFirst(v: seq<VisitRow>, code: Code): (log: seq<VisitRow>)
  {
    Sorting.SortBy(VisitsOf(v, code), (r: VisitRow) => -(r.visitTime as int))
  }

  /** `ORDER BY visit_time` over a set of visit rows. */
  function SortedByTime(v: seq<VisitRow>): seq<VisitRow>
  {
    Sorting.SortBy(v, (r: VisitRow) => r.visitTime)
  }

  // ----- invariants the handlers keep beyond the declared constraints -----

  /**
   * `total_visits` is an aggregate of `visitor_visits`: every visit row has its
   * visitor row, and each visitor's counter equals its number of visit rows.
   */
  predicate AggregatesAgree(t: Tables)
  {
    && (forall i | 0 <= i < |t.visits| :: t.visits[i].visitorQr in t.visitors)
    && (forall c | c in t.visitors :: t.visitors[c].totalVisits == CountVisits(t.visits, c))
  }

  /** A sticker has only been dispensed to visitors who reached the threshold. */
  predicate DispensedOnlyWhenEligible(t: Tables, minVisits: nat)
  {
    forall c | c in t.visitors && t.visitors[c].stickerDispensed :: t.visitors[c].totalVisits >= minVisits
  }
}
