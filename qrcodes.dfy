/**
 * The QR code lifecycle of routes/qr_codes.py and the `QRCode` model of
 * database/models.py: drawing a batch of unique codes, the paired inserts,
 * the paginated listing, and bulk printed/distributed flagging.
 */
module QrCodes {
  import opened Wrappers
  import opened Schema
  import Text
  import Sorting

  /** The batch limit and default count routes/qr_codes.py writes out (config.py holds the same values). */
  const MaxBatch: int := 1000
  const DefaultCount: int := 500

  // ----- code text -----

  predicate IsSuffixChar(c: char) { 'A' <= c <= 'Z' || '0' <= c <= '9' }

  /** Eight characters drawn from `string.ascii_uppercase + string.digits`. */
  predicate IsRandomSuffix(s: string)
  {
    |s| == 8 && forall i | 0 <= i < 8 :: IsSuffixChar(s[i])
  }

  /** `generate_qr_code`: the whole seconds of the clock and a random suffix. */
  function GenerateCode(seconds: nat, suffix: string): (c: Code)
    requires IsRandomSuffix(suffix)
    ensures |c| == 17 + |Text.Decimal(seconds)|
    ensures c[..8] == "VISITOR_" && c[|c| - 9] == '_' && c[|c| - 8..] == suffix
    ensures Text.AllDigits(c[8..|c| - 9])
  {
    "VISITOR_" + Text.Decimal(seconds) + "_" + suffix
  }

  /** A code text determines the clock reading and the suffix it was made from. */
  lemma GenerateCodeInjective(s1: nat, x1: string, s2: nat, x2: string)
    requires IsRandomSuffix(x1) && IsRandomSuffix(x2)
    requires GenerateCode(s1, x1) == GenerateCode(s2, x2)
    ensures s1 == s2 && x1 == x2
  {
    var c := GenerateCode(s1, x1);
    var d1, d2 := Text.Decimal(s1), Text.Decimal(s2);
    assert c == "VISITOR_" + d1 + "_" + x1;
    assert c == "VISITOR_" + d2 + "_" + x2;
    assert c[8..|c| - 9] == d1;
    assert c[8..|c| - 9] == d2;
    Text.DecimalRoundTrip(s1);
    Text.DecimalRoundTrip(s2);
  }

  // ----- the drawing loop of generate_qr_codes -----

  /** The attempt budget `count * 3`; none when `count` is not positive. */
  function AttemptBudget(count: int): (b: nat)
    ensures count > 0 ==> b == 3 * count
    ensures count <= 0 ==> b == 0
  {
    if count > 0 then 3 * count else 0
  }

  /** `c` came out of one of the first `attempts` draws. */
  predicate DrawnWithin(draw: nat -> Code, attempts: nat, c: Code)
  {
    exists k: nat | k < attempts :: draw(k) == c
  }

  /**
   * The `while` loop: `draw(k)` is what `generate_qr_code` returns on attempt
   * `k`; a draw is kept unless it is already in `existing` or already kept.
   */
  method DrawUniqueCodes(count: int, existing: set<Code>, draw: nat -> Code) returns (codes: seq<Code>, attempts: nat)
    ensures Distinct(codes)
    ensures forall i | 0 <= i < |codes| :: codes[i] !in existing
    ensures count > 0 ==> |codes| <= count
    ensures count <= 0 ==> codes == [] && attempts == 0
    ensures attempts <= AttemptBudget(count)
    ensures |codes| < count ==> attempts == AttemptBudget(count)
    ensures forall k | 0 <= k < attempts :: draw(k) in existing || draw(k) in codes
    ensures forall i | 0 <= i < |codes| :: DrawnWithin(draw, attempts, codes[i])
  {
    codes := [];
    attempts := 0;
    var seen := existing;
    while |codes| < count && attempts < count * 3
      invariant attempts <= AttemptBudget(count)
      invariant count <= 0 ==> codes == [] && attempts == 0
      invariant count > 0 ==> |codes| <= count
      invariant seen == existing + set x | x in codes
      invariant Distinct(codes)
      invariant forall i | 0 <= i < |codes| :: codes[i] !in existing
      invariant forall k | 0 <= k < attempts :: draw(k) in seen
      invariant forall i | 0 <= i < |codes| :: DrawnWithin(draw, attempts, codes[i])
    {
      var c := draw(attempts);
      forall i | 0 <= i < |codes| ensures DrawnWithin(draw, attempts + 1, codes[i]) {
        var k: nat :| k < attempts && draw(k) == codes[i];
      }
      attempts := attempts + 1;
      if c !in seen {
        codes := codes + [c];
        seen := seen + {c};
      }
      assert draw(attempts - 1) == c;
    }
  }

  // ----- inserting accepted codes -----

  /** The `visitors` row inserted next to a new code: column defaults plus the image. */
  function PreparedVisitorRow(image: Image, now: Timestamp): (v: VisitorRow)
    ensures v.totalVisits == 0 && !v.stickerDispensed && v.isActive
    ensures v.firstVisit.None? && v.lastVisit.None? && v.qrCodeImage == Some(image)
  {
    DefaultVisitorRow(now).(qrCodeImage := Some(image))
  }

  /**
   * The statements for one code: its `qr_codes` row, then, when `withVisitor`,
   * its `visitors` row. Also `QRCode.create_qr_code` of database/models.py.
   */
  function InsertCode(t: Tables, code: Code, image: Image, now: Timestamp, withVisitor: bool): (r: Result<Tables, DbError>)
    ensures r.Err? <==> CodeInUse(t.qrCodes, code) || (withVisitor && code in t.visitors)
  {
    match InsertQr(t, code, image, now)
    case Err(e) => Err(e)
    case Ok(t1) => if withVisitor then InsertVisitor(t1, code, PreparedVisitorRow(image, now)) else Ok(t1)
  }

  /** The `for` loop of inserts inside one transaction: the first failing statement aborts the rest. */
  function InsertCodes(t: Tables, codes: seq<Code>, render: Code -> Image, now: Timestamp, withVisitors: bool)
    : (r: Result<Tables, DbError>)
    ensures codes == [] ==> r == Ok(t)
    ensures r.Ok? ==> r.value.visits == t.visits && |r.value.qrCodes| == |t.qrCodes| + |codes|
    ensures r.Ok? && !withVisitors ==> r.value.visitors == t.visitors
    decreases |codes|
  {
    if codes == [] then Ok(t)
    else match InsertCodes(t, codes[..|codes| - 1], render, now, withVisitors)
      case Err(e) => Err(e)
      case Ok(t1) => InsertCode(t1, codes[|codes| - 1], render(codes[|codes| - 1]), now, withVisitors)
  }

  /** Every insert of the batch succeeds: no code repeats, is in use, or (for visitor batches) has a visitor row. */
  predicate BatchFits(t: Tables, codes: seq<Code>, withVisitors: bool)
  {
    && Distinct(codes)
    && (forall i | 0 <= i < |codes| :: !CodeInUse(t.qrCodes, codes[i]))
    && (withVisitors ==> forall i | 0 <= i < |codes| :: codes[i] !in t.visitors)
  }

  /** The rows the batch appends to `qr_codes`, with consecutive AUTOINCREMENT ids. */
  function NewRows(firstId: nat, codes: seq<Code>, render: Code -> Image, now: Timestamp): (rows: seq<QrRow>)
    ensures |rows| == |codes|
    ensures forall i | 0 <= i < |codes| :: rows[i] == NewQrRow(firstId + i, codes[i], render(codes[i]), now)
  {
    seq(|codes|, i requires 0 <= i < |codes| => NewQrRow(firstId + i, codes[i], render(codes[i]), now))
  }

  /** The rows the batch adds to `visitors`. */
  function NewVisitors(codes: seq<Code>, render: Code -> Image, now: Timestamp): map<Code, VisitorRow>
  {
    map c | c in codes :: PreparedVisitorRow(render(c), now)
  }

  predicate BatchResult(t: Tables, t': Tables, codes: seq<Code>, render: Code -> Image, now: Timestamp, withVisitors: bool)
  {
    && t'.qrCodes == t.qrCodes + NewRows(t.nextQrId, codes, render, now)
    && t'.nextQrId == t.nextQrId + |codes|
    && t'.visits == t.visits && t'.nextVisitId == t.nextVisitId
    && t'.visitors == (if withVisitors then t.visitors + NewVisitors(codes, render, now) else t.visitors)
  }

  lemma NewRowsSnoc(id: nat, init: seq<Code>, c: Code, render: Code -> Image, now: Timestamp)
    ensures NewRows(id, init + [c], render, now) == NewRows(id, init, render, now) + [NewQrRow(id + |init|, c, render(c), now)]
  {
  }

  lemma NewVisitorsSnoc(init: seq<Code>, c: Code, render: Code -> Image, now: Timestamp)
    ensures NewVisitors(init + [c], render, now) == NewVisitors(init, render, now)[c := PreparedVisitorRow(render(c), now)]
  {
  }

  /** After appending the rows of `init`, a code is in use exactly when it was before or is one of `init`. */
  lemma CodeInUseAfterRows(q: seq<QrRow>, id: nat, init: seq<Code>, render: Code -> Image, now: Timestamp, c: Code)
    ensures CodeInUse(q + NewRows(id, init, render, now), c) <==> CodeInUse(q, c) || c in init
  {
    var rows := NewRows(id, init, render, now);
    var q' := q + rows;
    if c in init {
      var j :| 0 <= j < |init| && init[j] == c;
      assert q'[|q| + j] == rows[j];
    }
    if CodeInUse(q', c) {
      var k :| 0 <= k < |q'| && q'[k].qrCode == c;
      if k >= |q| {
        assert q'[k] == rows[k - |q|];
      } else {
        assert q'[k] == q[k];
      }
    }
    if CodeInUse(q, c) {
      var k :| 0 <= k < |q| && q[k].qrCode == c;
      assert q'[k] == q[k];
    }
  }

  lemma BatchFitsSnoc(t: Tables, init: seq<Code>, c: Code, withVisitors: bool)
    ensures BatchFits(t, init + [c], withVisitors) <==>
              && BatchFits(t, init, withVisitors) && !CodeInUse(t.qrCodes, c) && c !in init
              && (withVisitors ==> c !in t.visitors)
  {
    var codes := init + [c];
    assert forall i | 0 <= i < |init| :: codes[i] == init[i];
    assert codes[|init|] == c;
    if BatchFits(t, codes, withVisitors) {
      forall i | 0 <= i < |init| ensures init[i] != c {
        assert codes[i] != codes[|init|];
      }
    }
  }

  /** One more code after a committed prefix `init`. */
  lemma InsertCodeStep(t: Tables, t1: Tables, init: seq<Code>, c: Code, render: Code -> Image, now: Timestamp, withVisitors: bool)
    requires BatchResult(t, t1, init, render, now, withVisitors)
    ensures var r := InsertCode(t1, c, render(c), now, withVisitors);
      && (r.Ok? <==> !CodeInUse(t.qrCodes, c) && c !in init && (withVisitors ==> c !in t.visitors))
      && (r.Ok? ==> BatchResult(t, r.value, init + [c], render, now, withVisitors))
  {
    CodeInUseAfterRows(t.qrCodes, t.nextQrId, init, render, now, c);
    if InsertCode(t1, c, render(c), now, withVisitors).Ok? {
      InsertCodeStepResult(t, t1, init, c, render, now, withVisitors);
    }
  }

  lemma InsertCodeStepResult(t: Tables, t1: Tables, init: seq<Code>, c: Code, render: Code -> Image, now: Timestamp, withVisitors: bool)
    requires BatchResult(t, t1, init, render, now, withVisitors)
    requires InsertCode(t1, c, render(c), now, withVisitors).Ok?
    ensures BatchResult(t, InsertCode(t1, c, render(c), now, withVisitors).value, init + [c], render, now, withVisitors)
  {
    NewRowsSnoc(t.nextQrId, init, c, render, now);
    NewVisitorsSnoc(init, c, render, now);
    var t2 := InsertCode(t1, c, render(c), now, withVisitors).value;
    assert t2.qrCodes == t1.qrCodes + [NewQrRow(t1.nextQrId, c, render(c), now)];
    if withVisitors {
      assert t2.visitors == t1.visitors[c := PreparedVisitorRow(render(c), now)];
      UnionUpdate(t.visitors, NewVisitors(init, render, now), c, PreparedVisitorRow(render(c), now));
    }
  }

  lemma UnionUpdate(a: map<Code, VisitorRow>, b: map<Code, VisitorRow>, k: Code, v: VisitorRow)
    ensures a + b[k := v] == (a + b)[k := v]
  {
  }

  /** All or nothing: the batch commits exactly when it fits, and then adds one row (or pair) per code. */
  lemma {:induction false} InsertCodesSpec(t: Tables, codes: seq<Code>, render: Code -> Image, now: Timestamp, withVisitors: bool)
    ensures InsertCodes(t, codes, render, now, withVisitors).Ok? <==> BatchFits(t, codes, withVisitors)
    ensures InsertCodes(t, codes, render, now, withVisitors).Ok? ==>
              BatchResult(t, InsertCodes(t, codes, render, now, withVisitors).value, codes, render, now, withVisitors)
    decreases |codes|
  {
    if codes == [] {
      assert NewRows(t.nextQrId, codes, render, now) == [];
      assert NewVisitors(codes, render, now) == map[];
      assert t.visitors + map[] == t.visitors;
    } else {
      var init, c := codes[..|codes| - 1], codes[|codes| - 1];
      assert codes == init + [c];
      InsertCodesSpec(t, init, render, now, withVisitors);
      BatchFitsSnoc(t, init, c, withVisitors);
      var r1 := InsertCodes(t, init, render, now, withVisitors);
      if r1.Ok? {
        InsertCodeStep(t, r1.value, init, c, render, now, withVisitors);
      }
    }
  }

  /** A statement that fails aborts the transaction: later codes cannot rescue it. */
  lemma {:induction false} InsertCodesPrefixFails(t: Tables, codes: seq<Code>, i: nat, render: Code -> Image, now: Timestamp, withVisitors: bool)
    requires i <= |codes| && InsertCodes(t, codes[..i], render, now, withVisitors).Err?
    ensures InsertCodes(t, codes, render, now, withVisitors).Err?
    decreases |codes|
  {
    if i < |codes| {
      var init := codes[..|codes| - 1];
      assert init[..i] == codes[..i];
      InsertCodesPrefixFails(t, init, i, render, now, withVisitors);
    } else {
      assert codes[..i] == codes;
    }
  }

  lemma BatchKeepsUniqueCodes(t: Tables, t': Tables, codes: seq<Code>, render: Code -> Image, now: Timestamp, withVisitors: bool)
    requires UniqueQrCodes(t.qrCodes) && BatchFits(t, codes, withVisitors)
    requires BatchResult(t, t', codes, render, now, withVisitors)
    ensures UniqueQrCodes(t'.qrCodes)
  {
    var rows := NewRows(t.nextQrId, codes, render, now);
    var n := |t.qrCodes|;
    forall i, j | 0 <= i < j < |t'.qrCodes| ensures t'.qrCodes[i].qrCode != t'.qrCodes[j].qrCode {
      if j < n {
        assert t'.qrCodes[i] == t.qrCodes[i] && t'.qrCodes[j] == t.qrCodes[j];
      } else if i < n {
        assert t'.qrCodes[j] == rows[j - n];
        assert !CodeInUse(t.qrCodes, codes[j - n]);
        assert t'.qrCodes[i] == t.qrCodes[i];
      } else {
        assert t'.qrCodes[i] == rows[i - n] && t'.qrCodes[j] == rows[j - n];
      }
    }
  }

  lemma BatchKeepsIds(t: Tables, t': Tables, codes: seq<Code>, render: Code -> Image, now: Timestamp, withVisitors: bool)
    requires QrIdsIncreasing(t) && BatchResult(t, t', codes, render, now, withVisitors)
    ensures QrIdsIncreasing(t')
  {
    var rows := NewRows(t.nextQrId, codes, render, now);
    var n := |t.qrCodes|;
    forall k | 0 <= k < |t'.qrCodes|
      ensures t'.qrCodes[k].id == if k < n then t.qrCodes[k].id else t.nextQrId + (k - n)
    {
      if k < n { assert t'.qrCodes[k] == t.qrCodes[k]; } else { assert t'.qrCodes[k] == rows[k - n]; }
    }
  }

  lemma BatchKeepsAggregates(t: Tables, t': Tables, codes: seq<Code>, render: Code -> Image, now: Timestamp, withVisitors: bool)
    requires AggregatesAgree(t) && BatchFits(t, codes, withVisitors)
    requires BatchResult(t, t', codes, render, now, withVisitors)
    ensures AggregatesAgree(t')
  {
    if withVisitors {
      forall c | c in t'.visitors ensures t'.visitors[c].totalVisits == CountVisits(t'.visits, c) {
        if c !in t.visitors {
          CountVisitsPositive(t.visits, c);
        }
      }
    }
  }

  /** A committed batch keeps every schema constraint and the visit aggregates. */
  lemma InsertCodesKeepsInvariants(t: Tables, codes: seq<Code>, render: Code -> Image, now: Timestamp, withVisitors: bool)
    requires Valid(t) && AggregatesAgree(t) && InsertCodes(t, codes, render, now, withVisitors).Ok?
    ensures Valid(InsertCodes(t, codes, render, now, withVisitors).value)
    ensures AggregatesAgree(InsertCodes(t, codes, render, now, withVisitors).value)
  {
    InsertCodesSpec(t, codes, render, now, withVisitors);
    var t' := InsertCodes(t, codes, render, now, withVisitors).value;
    BatchKeepsUniqueCodes(t, t', codes, render, now, withVisitors);
    BatchKeepsIds(t, t', codes, render, now, withVisitors);
    BatchKeepsAggregates(t, t', codes, render, now, withVisitors);
  }

  /** `QRCode.create_qr_code`: a one-code visitor batch under one commit. */
  lemma CreateQrCodeIsSingletonBatch(t: Tables, code: Code, image: Image, now: Timestamp)
    ensures var r := InsertCode(t, code, image, now, true);
      && (r.Ok? <==> !CodeInUse(t.qrCodes, code) && code !in t.visitors)
      && (r.Ok? ==> BatchResult(t, r.value, [code], _ => image, now, true))
  {
    var render := (_: Code) => image;
    assert InsertCodes(t, [code], render, now, true) == InsertCode(t, code, image, now, true) by {
      assert [code][..0] == [];
    }
    InsertCodesSpec(t, [code], render, now, true);
  }

  // ----- the generate_qr_codes handler -----

  datatype GenerateReply =
    | TooMany                                    // 400 "Maximum 1000 QR codes ..."
    | ShortBatch(produced: nat, requested: int)  // 400 "Could only generate N unique codes out of M"
    | BatchFailed                                // 500: an INSERT raised and the connection rolled back
    | Generated(generatedCount: nat, sample: seq<Code>)

  function Min(a: int, b: int): int { if a < b then a else b }

  function Max(a: int, b: int): int { if a < b then b else a }

  /** `data.get('count', 500)`: the count of the request body, or the default when it has none. */
  function RequestedCount(requested: Option<int>): (count: int)
    ensures requested.None? ==> count == DefaultCount
    ensures requested.Some? ==> count == requested.value
  {
    if requested.Some? then requested.value else DefaultCount
  }

  /** The handler after the drawing loop produced `codes`. */
  function GenerateOutcome(t: Tables, count: int, codes: seq<Code>, render: Code -> Image, now: Timestamp)
    : (r: (Tables, GenerateReply))
    ensures r.1.TooMany? <==> count > MaxBatch
    ensures r.1.ShortBatch? <==> count <= MaxBatch && |codes| < count
    ensures r.1.ShortBatch? ==> r.1.produced == |codes| && r.1.requested == count
    ensures !r.1.Generated? ==> r.0 == t
    ensures r.1.Generated? ==> && r.1.generatedCount == |codes|
                               && r.1.sample == codes[..Min(10, |codes|)]
  {
    if count > MaxBatch then (t, TooMany)
    else if |codes| < count then (t, ShortBatch(|codes|, count))
    else match InsertCodes(t, codes, render, now, true)
      case Err(_) => (t, BatchFailed)
      case Ok(t') => (t', Generated(|codes|, codes[..Min(10, |codes|)]))
  }

  /**
   * With codes as the drawing loop returns them, the batch fails only on a code
   * that already has a visitor row; a generated batch adds exactly the drawn
   * codes, each with one `qr_codes` row and one fresh `visitors` row.
   */
  lemma GenerateSpec(t: Tables, count: int, codes: seq<Code>, render: Code -> Image, now: Timestamp)
    requires Valid(t) && AggregatesAgree(t)
    requires Distinct(codes) && forall i | 0 <= i < |codes| :: codes[i] !in AllCodes(t.qrCodes)
    ensures var r := GenerateOutcome(t, count, codes, render, now);
      && (r.1.BatchFailed? <==> count <= MaxBatch && |codes| >= count && exists i | 0 <= i < |codes| :: codes[i] in t.visitors)
      && (r.1.Generated? ==> && BatchResult(t, r.0, codes, render, now, true)
                             && Valid(r.0) && AggregatesAgree(r.0))
  {
    InsertCodesSpec(t, codes, render, now, true);
    if InsertCodes(t, codes, render, now, true).Ok? {
      InsertCodesKeepsInvariants(t, codes, render, now, true);
    }
  }

  // ----- pagination -----

  /** Python's `//`: the floor of the quotient, also for a negative divisor. */
  function FloorDiv(a: int, b: int): (q: int)
    requires b != 0
    ensures b > 0 ==> q * b <= a < q * b + b
    ensures b < 0 ==> q * b >= a > q * b + b
  {
    if b > 0 then a / b else (-a) / (-b)
  }

  /** `offset = (page - 1) * per_page`. */
  function Offset(page: int, perPage: int): int { (page - 1) * perPage }

  /** `(total_codes + per_page - 1) // per_page`; `None` is the ZeroDivisionError of `per_page == 0`. */
  function TotalPages(total: nat, perPage: int): (r: Option<int>)
    ensures r.None? <==> perPage == 0
  {
    if perPage == 0 then None else Some(FloorDiv(total + perPage - 1, perPage))
  }

  /** For a positive page size the page count is the ceiling of total / per_page. */
  lemma TotalPagesIsCeiling(total: nat, perPage: int)
    requires perPage > 0
    ensures var n := TotalPages(total, perPage).value;
      && n >= 0
      && n * perPage >= total
      && (total > 0 ==> (n - 1) * perPage < total)
      && (total == 0 ==> n == 0)
  {
  }

  /** SQLite's `LIMIT ? OFFSET ?`: a negative limit means no limit, a negative offset counts as zero. */
  function LimitOffset<T>(rows: seq<T>, limit: int, offset: int): (r: seq<T>)
    ensures limit >= 0 ==> |r| <= limit
    ensures var s := if offset < 0 then 0 else offset;
      && (s >= |rows| ==> r == [])
      && (s < |rows| ==> && s + |r| <= |rows| && r == rows[s..s + |r|]
                         && (limit < 0 || s + limit >= |rows| ==> s + |r| == |rows|)
                         && (limit >= 0 && s + limit < |rows| ==> |r| == limit))
  {
    var s := if offset < 0 then 0 else if offset > |rows| then |rows| else offset;
    var e := if limit < 0 || s + limit > |rows| then |rows| else s + limit;
    rows[s..e]
  }

  /** Row `i` of a page is row `start + i` of the whole result, and the page is as long as the clauses allow. */
  lemma PageIndex<T>(rows: seq<T>, limit: int, offset: int)
    ensures var start := Max(0, offset);
      var r := LimitOffset(rows, limit, offset);
      && |r| == (if start >= |rows| then 0 else if limit < 0 || start + limit >= |rows| then |rows| - start else limit)
      && forall i | 0 <= i < |r| :: start + i < |rows| && r[i] == rows[start + i]
  {
  }

  lemma MulMonotone(a: int, b: int, c: int)
    requires a <= b && c >= 0
    ensures a * c <= b * c
  {
  }

  lemma MulCancel(a: int, b: int, c: int)
    requires c > 0 && a * c < b * c
    ensures a < b
  {
  }

  /** Every row lies on page `k / per_page + 1`, which is one of the counted pages. */
  lemma RowOnItsPage<T>(rows: seq<T>, perPage: int, k: nat)
    requires perPage > 0 && k < |rows|
    ensures var p := k / perPage + 1;
      var page := LimitOffset(rows, perPage, Offset(p, perPage));
      && 1 <= p <= TotalPages(|rows|, perPage).value
      && k % perPage < |page| && page[k % perPage] == rows[k]
  {
    var p := k / perPage + 1;
    var s := Offset(p, perPage);
    assert s == (k / perPage) * perPage;
    assert s + k % perPage == k;
    TotalPagesIsCeiling(|rows|, perPage);
    var n := TotalPages(|rows|, perPage).value;
    MulCancel(p - 1, n, perPage);
  }

  /** Pages after the last counted page are empty. */
  lemma PagesBeyondAreEmpty<T>(rows: seq<T>, perPage: int, page: int)
    requires perPage > 0 && page > TotalPages(|rows|, perPage).value
    ensures LimitOffset(rows, perPage, Offset(page, perPage)) == []
  {
    TotalPagesIsCeiling(|rows|, perPage);
    var n := TotalPages(|rows|, perPage).value;
    MulMonotone(n, page - 1, perPage);
  }

  /** A join result row: the code's own columns and its visitor's, `or 0` / `or False` where none. */
  datatype CodeEntry = CodeEntry(
    id: nat,
    qrCode: Code,
    generatedTime: Timestamp,
    isPrinted: bool,
    isDistributed: bool,
    totalVisits: nat,
    stickerDispensed: bool,
    firstVisit: Option<Timestamp>,
    lastVisit: Option<Timestamp>,
    used: bool)

  /** One row of `qr_codes LEFT JOIN visitors` as the listing loop shapes it. */
  function EntryFor(visitors: map<Code, VisitorRow>, row: QrRow): (e: CodeEntry)
    ensures e.id == row.id && e.qrCode == row.qrCode && e.generatedTime == row.generatedTime
    ensures e.isPrinted == row.isPrinted && e.isDistributed == row.isDistributed
    ensures row.qrCode !in visitors ==>
              e.totalVisits == 0 && !e.stickerDispensed && e.firstVisit.None? && e.lastVisit.None?
    ensures row.qrCode in visitors ==>
              var v := visitors[row.qrCode];
              e.totalVisits == v.totalVisits && e.stickerDispensed == v.stickerDispensed
              && e.firstVisit == v.firstVisit && e.lastVisit == v.lastVisit
    ensures e.used <==> e.totalVisits > 0
  {
    if row.qrCode in visitors then
      var v := visitors[row.qrCode];
      CodeEntry(row.id, row.qrCode, row.generatedTime, row.isPrinted, row.isDistributed,
                v.totalVisits, v.stickerDispensed, v.firstVisit, v.lastVisit, v.totalVisits > 0)
    else
      CodeEntry(row.id, row.qrCode, row.generatedTime, row.isPrinted, row.isDistributed,
                0, false, None, None, false)
  }

  /** `ORDER BY qc.generated_time DESC`; rows with equal times keep table order. */
  function NewestFirst(q: seq<QrRow>): (r: seq<QrRow>)
    ensures Sorting.SortedBy(r, (x: QrRow) => -(x.generatedTime as int))
    ensures multiset(r) == multiset(q) && |r| == |q|
  {
    var r := Sorting.SortBy(q, (x: QrRow) => -(x.generatedTime as int));
    assert |r| == |multiset(r)| == |multiset(q)| == |q|;
    r
  }

  datatype ListReply =
    | ListServerError   // 500: ZeroDivisionError of per_page == 0
    | Listing(totalCodes: nat, page: int, perPage: int, totalPages: int, codes: seq<CodeEntry>)

  /** `get_qr_codes` / `QRCode.get_paginated_codes`. */
  function ListCodes(t: Tables, page: int, perPage: int): (r: ListReply)
    ensures r.ListServerError? <==> perPage == 0
    ensures r.Listing? ==>
      && r.totalCodes == |t.qrCodes| && r.page == page && r.perPage == perPage
      && r.totalPages == TotalPages(|t.qrCodes|, perPage).value
      && (perPage > 0 ==> |r.codes| <= perPage)
    ensures r.Listing? ==>
      var start := Max(0, Offset(page, perPage));
      var n := |t.qrCodes|;
      && |r.codes| == (if start >= n then 0 else if perPage < 0 || start + perPage >= n then n - start else perPage)
      && forall i | 0 <= i < |r.codes| :: r.codes[i] == EntryFor(t.visitors, NewestFirst(t.qrCodes)[start + i])
  {
    if perPage == 0 then ListServerError
    else
      var all := NewestFirst(t.qrCodes);
      var rows := LimitOffset(all, perPage, Offset(page, perPage));
      PageIndex(all, perPage, Offset(page, perPage));
      Listing(|t.qrCodes|, page, perPage, TotalPages(|t.qrCodes|, perPage).value,
              seq(|rows|, i requires 0 <= i < |rows| => EntryFor(t.visitors, rows[i])))
  }

  /** Every code is listed on page `k / per_page + 1`, at position `k % per_page`, where `k` is its newest-first rank. */
  lemma ListedOnItsPage(t: Tables, perPage: int, k: nat)
    requires perPage > 0 && k < |t.qrCodes|
    ensures var p := k / perPage + 1;
      var r := ListCodes(t, p, perPage);
      && r.Listing? && 1 <= p <= r.totalPages
      && k % perPage < |r.codes| && r.codes[k % perPage] == EntryFor(t.visitors, NewestFirst(t.qrCodes)[k])
  {
    var all := NewestFirst(t.qrCodes);
    RowOnItsPage(all, perPage, k);
  }

  /** The `for code in codes: code_list.append(...)` loop. */
  method BuildCodeList(visitors: map<Code, VisitorRow>, rows: seq<QrRow>) returns (list: seq<CodeEntry>)
    ensures |list| == |rows|
    ensures forall i | 0 <= i < |rows| :: list[i] == EntryFor(visitors, rows[i])
  {
    list := [];
    for i := 0 to |rows|
      invariant |list| == i
      invariant forall j | 0 <= j < i :: list[j] == EntryFor(visitors, rows[j])
    {
      list := list + [EntryFor(visitors, rows[i])];
    }
  }

  /** The handler step by step: count, page query, the building loop, then the page arithmetic. */
  method GetQrCodes(t: Tables, page: int, perPage: int) returns (r: ListReply)
    ensures r == ListCodes(t, page, perPage)
  {
    var total := |t.qrCodes|;
    var rows := LimitOffset(NewestFirst(t.qrCodes), perPage, Offset(page, perPage));
    var list := BuildCodeList(t.visitors, rows);
    if perPage == 0 {
      return ListServerError;
    }
    r := Listing(total, page, perPage, TotalPages(total, perPage).value, list);
  }

  /** 120 codes at 50 per page: three pages, the last holding 20. */
  lemma PaginationExample(t: Tables)
    requires |t.qrCodes| == 120
    ensures var r := ListCodes(t, 3, 50); r.Listing? && r.totalPages == 3 && |r.codes| == 20
  {
  }

  // ----- bulk flagging -----

  datatype Flag = Printed | Distributed

  function SetFlag(row: QrRow, flag: Flag): QrRow
  {
    match flag
    case Printed => row.(isPrinted := true)
    case Distributed => row.(isDistributed := true)
  }

  /** `UPDATE qr_codes SET is_<flag> = TRUE WHERE qr_code IN (...)`. */
  function MarkRows(q: seq<QrRow>, codes: seq<Code>, flag: Flag): (r: seq<QrRow>)
    ensures |r| == |q|
    ensures forall i | 0 <= i < |q| :: q[i].qrCode in codes ==> r[i] == SetFlag(q[i], flag)
    ensures forall i | 0 <= i < |q| :: q[i].qrCode !in codes ==> r[i] == q[i]
  {
    seq(|q|, i requires 0 <= i < |q| => if q[i].qrCode in codes then SetFlag(q[i], flag) else q[i])
  }

  /** `cursor.rowcount`: the rows the WHERE clause matched. */
  function MatchCount(q: seq<QrRow>, codes: seq<Code>): nat
  {
    if q == [] then 0 else (if q[0].qrCode in codes then 1 else 0) + MatchCount(q[1..], codes)
  }

  lemma AllCodesCons(q: seq<QrRow>)
    requires q != []
    ensures AllCodes(q) == {q[0].qrCode} + AllCodes(q[1..])
  {
    var rest := q[1..];
    forall c ensures c in AllCodes(q) <==> c == q[0].qrCode || c in AllCodes(rest) {
      if c in AllCodes(q) && c != q[0].qrCode {
        var k :| 0 <= k < |q| && q[k].qrCode == c;
        assert rest[k - 1] == q[k];
      }
      if c in AllCodes(rest) {
        var k :| 0 <= k < |rest| && rest[k].qrCode == c;
        assert q[k + 1] == rest[k];
      }
    }
  }

  lemma UniqueTail(q: seq<QrRow>)
    requires q != [] && UniqueQrCodes(q)
    ensures UniqueQrCodes(q[1..]) && q[0].qrCode !in AllCodes(q[1..])
  {
    var rest := q[1..];
    forall i, j | 0 <= i < j < |rest| ensures rest[i].qrCode != rest[j].qrCode {
      assert rest[i] == q[i + 1] && rest[j] == q[j + 1];
    }
    forall k | 0 <= k < |rest| ensures rest[k].qrCode != q[0].qrCode {
      assert rest[k] == q[k + 1];
    }
  }

  /** With unique codes, the count is the number of distinct listed codes that exist. */
  lemma {:induction false} MatchCountIsListedCodesPresent(q: seq<QrRow>, codes: seq<Code>)
    requires UniqueQrCodes(q)
    ensures MatchCount(q, codes) == |AllCodes(q) * (set c | c in codes)|
  {
    var L := set c | c in codes;
    if q == [] {
      assert AllCodes(q) * L == {};
    } else {
      var rest := q[1..];
      UniqueTail(q);
      AllCodesCons(q);
      MatchCountIsListedCodesPresent(rest, codes);
      MeetConsCard(q[0].qrCode, AllCodes(rest), L);
    }
  }

  lemma MeetConsCard(x: Code, a: set<Code>, l: set<Code>)
    requires x !in a
    ensures |({x} + a) * l| == (if x in l then 1 else 0) + |a * l|
  {
    if x in l {
      assert ({x} + a) * l == {x} + a * l;
    } else {
      assert ({x} + a) * l == a * l;
    }
  }

  /** Flagging keeps the schema, changes only the one flag, and is idempotent. */
  lemma MarkRowsProperties(t: Tables, codes: seq<Code>, flag: Flag)
    requires Valid(t)
    ensures var t' := t.(qrCodes := MarkRows(t.qrCodes, codes, flag));
      && Valid(t')
      && AllCodes(t'.qrCodes) == AllCodes(t.qrCodes)
      && (forall i | 0 <= i < |t.qrCodes| :: t'.qrCodes[i].deletedTime == t.qrCodes[i].deletedTime)
      && MarkRows(t'.qrCodes, codes, flag) == t'.qrCodes
  {
    var q' := MarkRows(t.qrCodes, codes, flag);
    assert forall i | 0 <= i < |q'| :: q'[i].qrCode == t.qrCodes[i].qrCode && q'[i].id == t.qrCodes[i].id;
    var q'' := MarkRows(q', codes, flag);
    forall i | 0 <= i < |q'| ensures q''[i] == q'[i] {
      if t.qrCodes[i].qrCode in codes {
        match flag
        case Printed =>
        case Distributed =>
      }
    }
  }

  datatype MarkReply =
    | NoCodesProvided     // 400 "No QR codes provided"
    | Marked(updatedCount: nat)

  /** The print-batch / distribute-batch handlers; `Marked` is also what `mark_printed` / `mark_distributed` return. */
  function MarkBatch(t: Tables, codes: seq<Code>, flag: Flag, checkEmpty: bool): (r: (Tables, MarkReply))
    ensures r.1.NoCodesProvided? <==> checkEmpty && codes == []
    ensures r.1.NoCodesProvided? ==> r.0 == t
    ensures r.1.Marked? ==> r.0 == t.(qrCodes := MarkRows(t.qrCodes, codes, flag))
                            && r.1.updatedCount == MatchCount(t.qrCodes, codes)
  {
    if checkEmpty && codes == [] then (t, NoCodesProvided)
    else (t.(qrCodes := MarkRows(t.qrCodes, codes, flag)), Marked(MatchCount(t.qrCodes, codes)))
  }
}
