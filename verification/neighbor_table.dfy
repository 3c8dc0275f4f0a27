/**
  The neighbour table of one remote node, fetched with the ZigBee Device
  Profile request Mgmt_Lqi_req (cluster 0x0031) and decoded from the
  Mgmt_Lqi_rsp payload (ZigBee Specification 05-3474, sections 2.4.3.3.2 and
  2.4.4.3.2).

  Payload layout as the code reads it: byte 0 is the transaction sequence
  number, byte 1 the status (never looked at), byte 2 the total number of
  neighbours, byte 3 the start index of this page, byte 4 the number of
  records in this page, and 22-byte records from offset 5. In record `i` the
  8-byte extended address occupies bytes 13+22i .. 20+22i, least significant
  byte first, and the link quality is byte 26+22i.

  The radio is an oracle: each request gets one `Reply` from a finite
  sequence, and running out of replies ends the model's horizon.
 */
module NeighborTable {
  import opened Common
  import opened Hex

  /** A 64-bit node address, by its numeric value. The address library
      compares addresses byte by byte over eight bytes, which is equality of
      this value. */
  datatype Address = Address(value: nat)

  const AddressWidth := 8
  const HeaderSize := 5
  const RecordSize := 22
  /** Offset of the extended address within the payload for record 0. */
  const AddressOffset := 13
  /** Offset of the link quality byte within the payload for record 0. */
  const LqiOffset := 26

  function Pow256(n: nat): (r: nat)
    ensures r >= 1
  {
    if n == 0 then 1 else 256 * Pow256(n - 1)
  }

  /** The address library's constructor from a hex string, as this model
      takes it: the digits are read as a number, so a string shorter than
      sixteen digits stands for an address whose high bytes are zero. */
  function AddressFromHex(s: string): (a: Address)
    requires |s| <= 2 * AddressWidth
    requires forall k :: 0 <= k < |s| ==> IsHexDigit(s[k])
  {
    Address(HexValue(s))
  }

  /** The number the bytes `p[start..end)` denote with `p[start]` least
      significant: the order the standard stores an extended address in. */
  function LittleEndian(p: seq<JByte>, start: int, end: int): (v: nat)
    requires end <= start || (0 <= start && end <= |p|)
    decreases end - start
  {
    if end <= start then 0 else Mask(p[start]) + 256 * LittleEndian(p, start + 1, end)
  }

  /** Rendering a slice most significant byte first and reading the digits
      back as a number gives the slice's little-endian value. */
  lemma {:induction false} HexStringValue(p: seq<JByte>, start: int, end: int)
    requires 0 <= start <= end <= |p|
    ensures HexValue(HexString(p, start, end)) == LittleEndian(p, start, end)
    decreases end - start
  {
    if start < end {
      HexStringValue(p, start + 1, end);
      HexValueAppendByte(HexString(p, start + 1, end), Mask(p[start]));
    }
  }

  /** One more byte at the top adds that byte times its place value. */
  lemma {:induction false} LittleEndianExtend(p: seq<JByte>, start: int, end: int)
    requires 0 <= start <= end < |p|
    ensures LittleEndian(p, start, end + 1) == LittleEndian(p, start, end) + Mask(p[end]) * Pow256(end - start)
    decreases end - start
  {
    var top := Mask(p[end]);
    if start < end {
      LittleEndianExtend(p, start + 1, end);
      ShiftDigit(Mask(p[start]), LittleEndian(p, start + 1, end), top, Pow256(end - start - 1));
    } else {
      assert LittleEndian(p, start, end + 1) == top + 256 * LittleEndian(p, start + 1, end + 1);
    }
  }

  /** One base-256 digit in front of `below + top * w` moves `top` up one place. */
  lemma ShiftDigit(d: int, below: int, top: int, w: int)
    ensures d + 256 * (below + top * w) == d + 256 * below + top * (256 * w)
  {
  }

  /** Which byte range the address of a record is read from: the half-open
      range the code passes, which stops one byte short, or the full
      eight-byte field of the standard. */
  datatype Span = AsWritten | Corrected

  function AddressStart(i: nat): int { AddressOffset + RecordSize * i }

  function AddressEnd(span: Span, i: nat): int
  {
    AddressStart(i) + (if span.AsWritten? then AddressWidth - 1 else AddressWidth)
  }

  /** Record `i` can be read without an index exception: its last byte, the
      link quality, lies inside the payload. */
  predicate RecordFits(p: seq<JByte>, i: nat) {
    LqiOffset + RecordSize * i < |p|
  }

  /** The key the code stores for record `i`: the address constructed from
      the hex rendering of the record's address bytes. */
  function RecordAddress(p: seq<JByte>, i: nat, span: Span): (a: Address)
    requires RecordFits(p, i)
    ensures a.value % 256 == Mask(p[AddressStart(i)])
    ensures a.value < Pow256(AddressEnd(span, i) - AddressStart(i))
  {
    var s, e := AddressStart(i), AddressEnd(span, i);
    LittleEndianBound(p, s, e);
    LowByte(Mask(p[s]), LittleEndian(p, s + 1, e));
    Address(LittleEndian(p, s, e))
  }

  /** A little-endian value of `n` bytes is below 256^n. */
  lemma {:induction false} LittleEndianBound(p: seq<JByte>, start: int, end: int)
    requires 0 <= start <= end <= |p|
    ensures LittleEndian(p, start, end) < Pow256(end - start)
    decreases end - start
  {
    if start < end {
      LittleEndianBound(p, start + 1, end);
      DigitBound(Mask(p[start]), LittleEndian(p, start + 1, end), Pow256(end - start - 1));
    }
  }

  lemma DigitBound(d: int, rest: int, w: int)
    requires 0 <= d < 256 && 0 <= rest < w
    ensures d + 256 * rest < 256 * w
  {
  }

  /** The least significant byte of `d + 256 * rest` is `d`. */
  lemma LowByte(d: int, rest: int)
    requires 0 <= d < 256
    ensures (d + 256 * rest) % 256 == d
  {
  }

  /** The key is what the address library makes of the rendered hex string. */
  lemma RecordAddressRendered(p: seq<JByte>, i: nat, span: Span)
    requires RecordFits(p, i)
    ensures RecordAddress(p, i, span) == AddressFromHex(HexString(p, AddressStart(i), AddressEnd(span, i)))
  {
    HexStringValue(p, AddressStart(i), AddressEnd(span, i));
  }

  /** The link quality of record `i`: its byte at offset 26 + 22i, read unsigned. */
  function RecordLqi(p: seq<JByte>, i: nat): (q: Octet)
    requires RecordFits(p, i)
    ensures (q - p[LqiOffset + RecordSize * i]) % 256 == 0
    ensures p[LqiOffset + RecordSize * i] >= 0 ==> q == p[LqiOffset + RecordSize * i]
  {
    Mask(p[LqiOffset + RecordSize * i])
  }

  /** The extended address the standard puts in record `i`: all eight bytes,
      least significant first. */
  function ExtendedAddress(p: seq<JByte>, i: nat): (a: Address)
    requires RecordFits(p, i)
  {
    Address(LittleEndian(p, AddressStart(i), AddressStart(i) + AddressWidth))
  }

  /** The code's half-open range drops the most significant byte of the
      address: what it decodes is the true address exactly when that byte
      is zero. */
  lemma AsWrittenAddress(p: seq<JByte>, i: nat)
    requires RecordFits(p, i)
    ensures RecordAddress(p, i, AsWritten) == ExtendedAddress(p, i) <==> p[AddressStart(i) + 7] == 0
  {
    var s := AddressStart(i);
    LittleEndianExtend(p, s, s + 7);
    var top := Mask(p[s + 7]);
    assert top == 0 <==> p[s + 7] == 0;
    assert top * Pow256(7) == 0 <==> top == 0;
  }

  /** A record whose top address byte is 0x13 decodes to a different address. */
  lemma DroppedByteExample()
    ensures var p: seq<JByte> := seq(27, k => if k == 20 then 0x13 else 0);
      RecordFits(p, 0) && RecordAddress(p, 0, AsWritten) != ExtendedAddress(p, 0)
  {
    var p: seq<JByte> := seq(27, k => if k == 20 then 0x13 else 0);
    AsWrittenAddress(p, 0);
  }

  /** Reading all eight bytes gives the standard's address for every record. */
  lemma CorrectedAddress(p: seq<JByte>, i: nat)
    requires RecordFits(p, i)
    ensures RecordAddress(p, i, Corrected) == ExtendedAddress(p, i)
  {
  }

  /** Every stored link quality is an unsigned byte. */
  ghost predicate LqiInRange(table: map<Address, int>) {
    forall a :: a in table ==> 0 <= table[a] <= 255
  }

  datatype Decoded = Decoded(table: map<Address, int>, escaped: bool)

  /** The addresses of the records from `i` up to `count` that lie inside the
      page; `RecordKeysMembers` characterises them. */
  ghost function RecordKeys(p: seq<JByte>, i: nat, count: int, span: Span): set<Address>
    decreases count - i
  {
    if i >= count || !RecordFits(p, i) then {}
    else {RecordAddress(p, i, span)} + RecordKeys(p, i + 1, count, span)
  }

  /** An address is among the records' addresses exactly when some record
      from `i` on, inside the page, carries it. */
  lemma {:induction false} RecordKeysMembers(p: seq<JByte>, i: nat, count: int, span: Span, a: Address)
    ensures a in RecordKeys(p, i, count, span)
        <==> exists k :: i <= k < count && RecordFits(p, k) && RecordAddress(p, k, span) == a
    decreases count - i
  {
    if i < count && RecordFits(p, i) {
      RecordKeysMembers(p, i + 1, count, span, a);
      if a !in RecordKeys(p, i, count, span) {
        forall k | i <= k < count && RecordFits(p, k)
          ensures RecordAddress(p, k, span) != a
        {
          if k > i {
            assert !(exists k' :: i + 1 <= k' < count && RecordFits(p, k') && RecordAddress(p, k', span) == a);
          }
        }
      }
    } else if i < count {
      forall k | i <= k < count
        ensures !RecordFits(p, k)
      {
        assert LqiOffset + RecordSize * i <= LqiOffset + RecordSize * k;
      }
    }
  }

  /** The `for` loop over the records of one page, from record `i` on: each
      record is put into the table (overwriting an equal address), until a
      record that does not fit raises the index exception. */
  function Records(table: map<Address, int>, p: seq<JByte>, i: nat, count: int, span: Span): (d: Decoded)
    ensures d.escaped <==> i < count && |p| < HeaderSize + RecordSize * count
    ensures table.Keys <= d.table.Keys
    ensures LqiInRange(table) ==> LqiInRange(d.table)
    decreases count - i
  {
    if i >= count then Decoded(table, false)
    else if !RecordFits(p, i) then Decoded(table, true)
    else Records(table[RecordAddress(p, i, span) := RecordLqi(p, i)], p, i + 1, count, span)
  }

  /** The loop adds exactly the addresses of the records inside the page,
      whether it ends or the index exception escapes, and no other key. */
  lemma {:induction false} RecordsKeys(table: map<Address, int>, p: seq<JByte>, i: nat, count: int, span: Span)
    ensures Records(table, p, i, count, span).table.Keys == table.Keys + RecordKeys(p, i, count, span)
    decreases count - i
  {
    if i < count && RecordFits(p, i) {
      RecordsKeys(table[RecordAddress(p, i, span) := RecordLqi(p, i)], p, i + 1, count, span);
    }
  }

  /** A later record with the same address overwrites an earlier one: record
      `j`'s link quality survives when no later record repeats its address. */
  lemma {:induction false} RecordsLastWins(table: map<Address, int>, p: seq<JByte>, i: nat, count: int, span: Span, j: nat)
    requires i <= j < count && HeaderSize + RecordSize * count <= |p|
    requires forall k :: j < k < count ==> RecordAddress(p, k, span) != RecordAddress(p, j, span)
    ensures RecordAddress(p, j, span) in Records(table, p, i, count, span).table
    ensures Records(table, p, i, count, span).table[RecordAddress(p, j, span)] == RecordLqi(p, j)
    decreases count - i
  {
    var t := table[RecordAddress(p, i, span) := RecordLqi(p, i)];
    if i < j {
      RecordsLastWins(t, p, i + 1, count, span, j);
    } else {
      RecordsUntouched(t, p, i + 1, count, span, RecordAddress(p, j, span));
    }
  }

  /** An address no remaining record carries keeps its value. */
  lemma {:induction false} RecordsUntouched(table: map<Address, int>, p: seq<JByte>, i: nat, count: int, span: Span, a: Address)
    requires a in table && HeaderSize + RecordSize * count <= |p|
    requires forall k :: i <= k < count ==> RecordAddress(p, k, span) != a
    ensures a in Records(table, p, i, count, span).table
    ensures Records(table, p, i, count, span).table[a] == table[a]
    decreases count - i
  {
    if i < count {
      RecordsUntouched(table[RecordAddress(p, i, span) := RecordLqi(p, i)], p, i + 1, count, span, a);
    }
  }

  datatype Fault = Timeout | OtherXBee

  /** What one request/response round gave: a payload, or a `TimeoutException`
      or other `XBeeException` from the send or the read. */
  datatype Reply = Answer(payload: seq<JByte>) | Failed(fault: Fault)

  /** How `refresh` ended: the paging condition said stop, an XBee exception
      was caught, an index exception escaped, or the oracle ran out of
      replies while the loop would have sent another request. */
  datatype RefreshEnd = Finished | Caught(fault: Fault) | Escaped | Exhausted

  datatype RefreshResult = RefreshResult(table: map<Address, int>, requests: seq<seq<JByte>>, end: RefreshEnd)

  /** The `do ... while` paging loop, from request index `index` on. Header
      fields are signed bytes compared after promotion to `int`; the request
      index is a byte and wraps. */
  function Pages(table: map<Address, int>, index: JByte, replies: seq<Reply>, span: Span): (r: RefreshResult)
    ensures table.Keys <= r.table.Keys
    ensures LqiInRange(table) ==> LqiInRange(r.table)
    ensures |r.requests| <= |replies|
    ensures |replies| > 0 ==> |r.requests| > 0 && r.requests[0] == [1, index]
    decreases |replies|
  {
    if |replies| == 0 then RefreshResult(table, [], Exhausted)
    else
      var request: seq<JByte> := [1, index];
      match replies[0]
      case Failed(f) => RefreshResult(table, [request], Caught(f))
      case Answer(p) =>
        if |p| < HeaderSize then RefreshResult(table, [request], Escaped)
        else
          var page := Records(table, p, 0, p[4], span);
          if page.escaped then RefreshResult(page.table, [request], Escaped)
          else if p[3] as int + p[4] as int < p[2] as int then
            var rest := Pages(page.table, Wrap(index + p[4]), replies[1..], span);
            RefreshResult(rest.table, [request] + rest.requests, rest.end)
          else RefreshResult(page.table, [request], Finished)
  }

  /** `refresh()`: set the AO parameter (which may itself throw), then page
      from index 0. */
  function Refresh(table: map<Address, int>, aoFault: Option<Fault>, replies: seq<Reply>, span: Span): (r: RefreshResult)
    ensures table.Keys <= r.table.Keys
    ensures LqiInRange(table) ==> LqiInRange(r.table)
    ensures aoFault.Some? ==> r == RefreshResult(table, [], Caught(aoFault.value))
    ensures aoFault.None? && |replies| > 0 ==> |r.requests| > 0 && r.requests[0] == [1, 0]
  {
    match aoFault
    case Some(f) => RefreshResult(table, [], Caught(f))
    case None => Pages(table, 0, replies, span)
  }

  /** The constructor: an empty table, then `refresh()`. */
  function NewTable(aoFault: Option<Fault>, replies: seq<Reply>, span: Span): (r: RefreshResult)
    ensures LqiInRange(r.table)
  {
    Refresh(map[], aoFault, replies, span)
  }

  /** `getNeighbors()`: the table's key set. */
  function Neighbors(table: map<Address, int>): (s: set<Address>)
    ensures forall a :: a in s <==> a in table
    ensures forall a :: a !in s ==> GetLqi(table, a) == 0
    ensures forall a :: a in s ==> GetLqi(table, a) == table[a]
  {
    table.Keys
  }

  /** `getLQI(a)`: the stored value for a neighbour, 0 otherwise. */
  function GetLqi(table: map<Address, int>, a: Address): (q: int)
    ensures a in table ==> q == table[a]
    ensures a !in table ==> q == 0
    ensures LqiInRange(table) ==> 0 <= q <= 255
  {
    if a in table then table[a] else 0
  }

  // ---------------------------------------------------------------------
  // An independent description of where paging stops.

  /** A page whose header is present and whose records all fit. */
  predicate PageReadable(p: seq<JByte>) {
    |p| >= HeaderSize && (p[4] <= 0 || HeaderSize + RecordSize * p[4] <= |p|)
  }

  /** A reply after which the loop sends another request. */
  predicate Continues(r: Reply) {
    r.Answer? && PageReadable(r.payload) && r.payload[3] as int + r.payload[4] as int < r.payload[2] as int
  }

  /** How many replies in a row, from the first, keep the loop going. */
  function Leading(replies: seq<Reply>): (n: nat)
    ensures n <= |replies|
    ensures forall k :: 0 <= k < n ==> Continues(replies[k])
    ensures n < |replies| ==> !Continues(replies[n])
  {
    if |replies| == 0 || !Continues(replies[0]) then 0 else 1 + Leading(replies[1..])
  }

  /** How the loop ends on a reply that does not continue it. */
  function EndOf(r: Reply): RefreshEnd {
    match r
    case Failed(f) => Caught(f)
    case Answer(p) => if PageReadable(p) then Finished else Escaped
  }

  /** `listCount` of a reply whose header could be read. */
  function ListCount(r: Reply): int {
    if r.Answer? && |r.payload| >= HeaderSize then r.payload[4] else 0
  }

  /** The sum of `listCount` over the first `k` replies. */
  function CountSum(replies: seq<Reply>, k: nat): int
    requires k <= |replies|
  {
    if k == 0 then 0 else ListCount(replies[0]) + CountSum(replies[1..], k - 1)
  }

  /** The table after decoding each readable page of `replies` in order. */
  function AfterPages(table: map<Address, int>, replies: seq<Reply>, span: Span): map<Address, int>
    decreases |replies|
  {
    if |replies| == 0 then table
    else
      var t := if replies[0].Answer? && |replies[0].payload| >= HeaderSize
               then Records(table, replies[0].payload, 0, replies[0].payload[4], span).table
               else table;
      AfterPages(t, replies[1..], span)
  }

  /** A reply that continues the loop: its page is decoded and the loop goes
      on from the advanced index with the remaining replies. */
  lemma PagesContinue(table: map<Address, int>, index: JByte, replies: seq<Reply>, span: Span)
    requires |replies| > 0 && Continues(replies[0])
    ensures var p := replies[0].payload;
      var rest := Pages(Records(table, p, 0, p[4], span).table, Wrap(index + p[4]), replies[1..], span);
      Pages(table, index, replies, span) == RefreshResult(rest.table, [[1, index]] + rest.requests, rest.end)
  {
  }

  /** A reply that does not continue the loop ends it after one request:
      a caught exception leaves the table as it was, a finished loop holds
      the reply's page. */
  lemma PagesHalt(table: map<Address, int>, index: JByte, replies: seq<Reply>, span: Span)
    requires |replies| > 0 && !Continues(replies[0])
    ensures var r := Pages(table, index, replies, span);
      && r.requests == [[1, index]]
      && r.end == EndOf(replies[0])
      && (replies[0].Failed? ==> r.table == table)
      && (r.end == Finished ==> r.table == AfterPages(table, replies[..1], span))
  {
    assert replies[..1][1..] == [];
  }

  /** Decoding the first `m` replies of a continuing run is decoding the
      first page and then the next `m - 1` replies. */
  lemma AfterPagesCons(table: map<Address, int>, replies: seq<Reply>, m: nat, span: Span)
    requires 0 < m <= |replies| && Continues(replies[0])
    ensures var p := replies[0].payload;
      AfterPages(table, replies[..m], span) == AfterPages(Records(table, p, 0, p[4], span).table, replies[1..][..m - 1], span)
  {
    assert replies[..m][1..] == replies[1..][..m - 1];
  }

  /** The loop sends one request per continuing reply plus one for the reply
      that stops it, and ends as that reply dictates; if every reply
      continues, the horizon is reached. */
  lemma {:induction false} PagesStop(table: map<Address, int>, index: JByte, replies: seq<Reply>, span: Span)
    ensures var r := Pages(table, index, replies, span);
      var n := Leading(replies);
      && (n == |replies| ==> |r.requests| == n && r.end == Exhausted)
      && (n < |replies| ==> |r.requests| == n + 1 && r.end == EndOf(replies[n]))
    decreases |replies|
  {
    if |replies| > 0 && Continues(replies[0]) {
      var p := replies[0].payload;
      PagesContinue(table, index, replies, span);
      PagesStop(Records(table, p, 0, p[4], span).table, Wrap(index + p[4]), replies[1..], span);
    }
  }

  /** The requests a loop starting at `index` sends for the first `n`
      replies, each index advanced by the previous reply's `listCount`. */
  function RequestList(index: JByte, replies: seq<Reply>, n: nat): (rs: seq<seq<JByte>>)
    requires n <= |replies|
    ensures |rs| == n
    decreases n
  {
    if n == 0 then []
    else [[1, index]] + RequestList(Wrap(index + ListCount(replies[0])), replies[1..], n - 1)
  }

  lemma {:induction false} PagesRequestList(table: map<Address, int>, index: JByte, replies: seq<Reply>, span: Span)
    ensures var r := Pages(table, index, replies, span);
      r.requests == RequestList(index, replies, |r.requests|)
    decreases |replies|
  {
    if |replies| > 0 && Continues(replies[0]) {
      var p := replies[0].payload;
      var t := Records(table, p, 0, p[4], span).table;
      var next := Wrap(index + p[4]);
      var rest := Pages(t, next, replies[1..], span);
      PagesRequestList(t, next, replies[1..], span);
      PagesContinue(table, index, replies, span);
      var r := Pages(table, index, replies, span);
      assert r.requests == [[1, index]] + rest.requests;
      assert ListCount(replies[0]) == p[4];
      assert RequestList(index, replies, |r.requests|)
          == [[1, index]] + RequestList(next, replies[1..], |rest.requests|);
    } else if |replies| > 0 {
      PagesHalt(table, index, replies, span);
    }
  }

  lemma {:induction false} RequestAt(index: JByte, replies: seq<Reply>, n: nat, k: nat)
    requires k < n <= |replies|
    ensures RequestList(index, replies, n)[k] == [1, Wrap(index + CountSum(replies, k))]
    decreases k
  {
    if k > 0 {
      var next := Wrap(index + ListCount(replies[0]));
      RequestAt(next, replies[1..], n - 1, k - 1);
      assert RequestList(index, replies, n)[k] == RequestList(next, replies[1..], n - 1)[k - 1];
      WrapAdd(index + ListCount(replies[0]), CountSum(replies[1..], k - 1));
    } else {
      assert CountSum(replies, 0) == 0;
    }
  }

  /** Request `k` carries `[1, index]` where the index is the starting index
      plus the `listCount` values of the replies before it, wrapped to a byte. */
  lemma PagesRequests(table: map<Address, int>, index: JByte, replies: seq<Reply>, span: Span)
    ensures var r := Pages(table, index, replies, span);
      forall k :: 0 <= k < |r.requests| ==> r.requests[k] == [1, Wrap(index + CountSum(replies, k))]
  {
    var r := Pages(table, index, replies, span);
    PagesRequestList(table, index, replies, span);
    forall k | 0 <= k < |r.requests|
      ensures r.requests[k] == [1, Wrap(index + CountSum(replies, k))]
    {
      RequestAt(index, replies, |r.requests|, k);
    }
  }

  /** A caught exception keeps every page decoded before it, and a finished
      loop holds every page it received. */
  lemma {:induction false} PagesTable(table: map<Address, int>, index: JByte, replies: seq<Reply>, span: Span)
    ensures var r := Pages(table, index, replies, span);
      var n := Leading(replies);
      && (n < |replies| && replies[n].Failed? ==> r.table == AfterPages(table, replies[..n], span))
      && (n < |replies| && r.end == Finished ==> r.table == AfterPages(table, replies[..n + 1], span))
    decreases |replies|
  {
    var n := Leading(replies);
    if |replies| > 0 {
      if Continues(replies[0]) {
        var p := replies[0].payload;
        var t := Records(table, p, 0, p[4], span).table;
        var r := Pages(table, index, replies, span);
        var rest := Pages(t, Wrap(index + p[4]), replies[1..], span);
        PagesContinue(table, index, replies, span);
        assert r.table == rest.table && r.end == rest.end;
        PagesTable(t, Wrap(index + p[4]), replies[1..], span);
        var m := Leading(replies[1..]);
        assert n == 1 + m;
        if n < |replies| {
          assert replies[1..][m] == replies[n];
          AfterPagesCons(table, replies, n, span);
          AfterPagesCons(table, replies, n + 1, span);
          assert r.end == Finished ==> r.table == AfterPages(table, replies[..n + 1], span);
        }
      } else {
        PagesHalt(table, index, replies, span);
        assert n == 0;
        assert replies[..0] == [];
      }
    }
  }

  /** A page with the given header fields and record bytes. */
  function Page(total: JByte, start: JByte, count: JByte, body: seq<JByte>): (p: seq<JByte>)
    ensures |p| == HeaderSize + |body|
  {
    [0, 0, total, start, count] + body
  }

  /** Five neighbours in pages of 2, 2 and 1: three requests with indices 0,
      2 and 4, whatever further replies the radio would give, and the table
      holds the five record addresses. */
  lemma ThreePages(b1: seq<JByte>, b2: seq<JByte>, b3: seq<JByte>, later: seq<Reply>, span: Span)
    requires |b1| == 2 * RecordSize && |b2| == 2 * RecordSize && |b3| == RecordSize
    ensures var p1, p2, p3 := Page(5, 0, 2, b1), Page(5, 2, 2, b2), Page(5, 4, 1, b3);
      var r := NewTable(None, [Answer(p1), Answer(p2), Answer(p3)] + later, span);
      && r.end == Finished
      && r.requests == [[1, 0], [1, 2], [1, 4]]
      && r.table.Keys == {RecordAddress(p1, 0, span), RecordAddress(p1, 1, span),
                          RecordAddress(p2, 0, span), RecordAddress(p2, 1, span),
                          RecordAddress(p3, 0, span)}
  {
    var p1, p2, p3 := Page(5, 0, 2, b1), Page(5, 2, 2, b2), Page(5, 4, 1, b3);
    var replies := [Answer(p1), Answer(p2), Answer(p3)] + later;
    assert replies[0] == Answer(p1) && replies[1] == Answer(p2) && replies[2] == Answer(p3);
    TwoTwoOne(p1, p2, p3, replies, span);
  }

  /** The paging run of `ThreePages`, for any pages with those headers. */
  lemma TwoTwoOne(p1: seq<JByte>, p2: seq<JByte>, p3: seq<JByte>, replies: seq<Reply>, span: Span)
    requires |p1| == |p2| == HeaderSize + 2 * RecordSize && |p3| == HeaderSize + RecordSize
    requires p1[2] == p2[2] == p3[2] == 5 && p1[3] == 0 && p2[3] == 2 && p3[3] == 4
    requires p1[4] == p2[4] == 2 && p3[4] == 1
    requires |replies| >= 3 && replies[0] == Answer(p1) && replies[1] == Answer(p2) && replies[2] == Answer(p3)
    ensures var r := Pages(map[], 0, replies, span);
      && r.end == Finished
      && r.requests == [[1, 0], [1, 2], [1, 4]]
      && r.table.Keys == {RecordAddress(p1, 0, span), RecordAddress(p1, 1, span),
                          RecordAddress(p2, 0, span), RecordAddress(p2, 1, span),
                          RecordAddress(p3, 0, span)}
  {
    var t1 := PageOfTwo(map[], p1, span);
    var t2 := PageOfTwo(t1, p2, span);
    var rest2 := replies[1..];
    var rest3 := rest2[1..];
    LastPageOfOne(t2, 4, p3, rest3, span);
    MiddlePageOfTwo(t1, 2, p2, rest2, span);
    MiddlePageOfTwo(map[], 0, p1, replies, span);
  }

  /** A full page of two records that asks for more. */
  lemma MiddlePageOfTwo(table: map<Address, int>, index: JByte, p: seq<JByte>, replies: seq<Reply>, span: Span)
    requires |p| == HeaderSize + 2 * RecordSize && p[4] == 2 && p[3] as int + 2 < p[2] as int
    requires |replies| > 0 && replies[0] == Answer(p)
    ensures var r := Pages(PageOfTwo(table, p, span), Wrap(index + 2), replies[1..], span);
      Pages(table, index, replies, span) == RefreshResult(r.table, [[1, index]] + r.requests, r.end)
  {
    PagesContinue(table, index, replies, span);
  }

  /** A page of one record that completes the table. */
  lemma LastPageOfOne(table: map<Address, int>, index: JByte, p: seq<JByte>, replies: seq<Reply>, span: Span)
    requires |p| == HeaderSize + RecordSize && p[4] == 1 && p[3] as int + 1 >= p[2] as int
    requires |replies| > 0 && replies[0] == Answer(p)
    ensures Pages(table, index, replies, span)
         == RefreshResult(table[RecordAddress(p, 0, span) := RecordLqi(p, 0)], [[1, index]], Finished)
  {
    var t := table[RecordAddress(p, 0, span) := RecordLqi(p, 0)];
    assert Records(t, p, 1, 1, span) == Decoded(t, false);
    assert Records(table, p, 0, 1, span) == Decoded(t, false);
  }

  /** Decoding a readable page of two records from `table`. */
  function PageOfTwo(table: map<Address, int>, p: seq<JByte>, span: Span): (t: map<Address, int>)
    requires |p| == HeaderSize + 2 * RecordSize && p[4] == 2
    ensures Records(table, p, 0, 2, span) == Decoded(t, false)
    ensures t.Keys == table.Keys + {RecordAddress(p, 0, span), RecordAddress(p, 1, span)}
  {
    var t := table[RecordAddress(p, 0, span) := RecordLqi(p, 0)][RecordAddress(p, 1, span) := RecordLqi(p, 1)];
    assert Records(t, p, 2, 2, span) == Decoded(t, false);
    t
  }

  /** All five neighbours in one page: one request. */
  lemma SinglePage(body: seq<JByte>, later: seq<Reply>, span: Span)
    requires |body| == 5 * RecordSize
    ensures var r := NewTable(None, [Answer(Page(5, 0, 5, body))] + later, span);
      r.end == Finished && r.requests == [[1, 0]]
  {
  }

  /** A reply with `listCount` 0 and a start index below the total never
      satisfies the stop condition: every request repeats index 0 until the
      replies run out. */
  lemma {:induction false} StuckPaging(n: nat, table: map<Address, int>, span: Span)
    ensures var r := Pages(table, 0, seq(n, k => Answer(Page(5, 0, 0, []))), span);
      r.end == Exhausted && |r.requests| == n
      && forall k :: 0 <= k < n ==> r.requests[k] == [1, 0]
  {
    var replies := seq(n, k => Answer(Page(5, 0, 0, [])));
    var r := Pages(table, 0, replies, span);
    PagesStop(table, 0, replies, span);
    PagesRequests(table, 0, replies, span);
    assert Leading(replies) == n;
    forall k | 0 <= k < n ensures r.requests[k] == [1, 0] {
      ZeroCounts(replies, k);
    }
  }

  lemma {:induction false} ZeroCounts(replies: seq<Reply>, k: nat)
    requires k <= |replies|
    requires forall j :: 0 <= j < |replies| ==> ListCount(replies[j]) == 0
    ensures CountSum(replies, k) == 0
  {
    if k > 0 {
      ZeroCounts(replies[1..], k - 1);
    }
  }

  /** The status byte is never read: a reply reporting an error status
      decodes exactly like one reporting success. */
  lemma StatusIgnored(table: map<Address, int>, index: JByte, p: seq<JByte>, status: JByte, rest: seq<Reply>, span: Span)
    requires |p| >= 2
    ensures Pages(table, index, [Answer(p[1 := status])] + rest, span)
         == Pages(table, index, [Answer(p)] + rest, span)
  {
    var q := p[1 := status];
    var withQ, withP := [Answer(q)] + rest, [Answer(p)] + rest;
    assert withQ[0] == Answer(q) && withP[0] == Answer(p);
    assert withQ[1..] == rest == withP[1..];
    if |p| >= HeaderSize {
      assert q[2] == p[2] && q[3] == p[3] && q[4] == p[4];
      RecordsIgnoreStatus(table, p, q, 0, p[4], span);
    }
  }

  lemma {:induction false} RecordsIgnoreStatus(table: map<Address, int>, p: seq<JByte>, q: seq<JByte>, i: nat, count: int, span: Span)
    requires |p| == |q| && forall k :: 0 <= k < |p| && k != 1 ==> p[k] == q[k]
    ensures Records(table, q, i, count, span) == Records(table, p, i, count, span)
    decreases count - i
  {
    if i < count && RecordFits(p, i) {
      LittleEndianAgree(p, q, AddressStart(i), AddressEnd(span, i));
      RecordsIgnoreStatus(table[RecordAddress(p, i, span) := RecordLqi(p, i)], p, q, i + 1, count, span);
    }
  }

  lemma {:induction false} LittleEndianAgree(a: seq<JByte>, b: seq<JByte>, start: int, end: int)
    requires 0 <= start && end <= |a| == |b|
    requires forall k :: start <= k < end ==> a[k] == b[k]
    ensures LittleEndian(a, start, end) == LittleEndian(b, start, end)
    decreases end - start
  {
    if start < end {
      LittleEndianAgree(a, b, start + 1, end);
    }
  }
}
