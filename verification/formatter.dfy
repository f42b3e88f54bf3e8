/** The event-log-to-table-row formatter of the "Completed" page: the body of
    the `event.get` callback in `getEvents`, which reverses the fetched
    `Validated` logs, maps each one to a six-slot array, and then maps each
    array to a `{headers, vals}` display record. */
module Formatter {
  import opened JsStrings
  import opened Names
  import opened Seqs

  /** The `args` of one `Validated` event log. Addresses and the name arrive
      as hex strings; the deadline and the value arrive as unsigned integers. */
  datatype Log = Log(
    contract: string,
    name: string,
    req: string,
    val: string,
    deadline: nat,
    value: nat)

  /** The foreign conversions the formatter calls. Each is an arbitrary total
      function, so nothing proved here depends on how it behaves.
      - `toNumber`: `BigNumber.prototype.toNumber`
      - `moment`: `moment(n).format(pattern)`
      - `fromWei`: `web3.fromWei(n, unit)`, a decimal string for a number argument
      - `toAscii`: `web3.toAscii(hex)` */
  datatype Library = Library(
    toNumber: nat -> int,
    moment: (int, string) -> string,
    fromWei: (int, string) -> string,
    toAscii: string -> string)

  const DeadlineFormat := "MM/DD/YYYY hh:mm:ss A"
  const Unit := "ether"
  const Currency := " ETH"
  const Ellipsis := "..."
  /** Both `slice(0, 20)` calls keep this many characters. */
  const SliceWidth := 20
  /** A decoded name is shortened only when it is longer than this. */
  const NameLimit := 23

  /** The six-slot array of the first map; the comments give the slot index. */
  datatype Slots = Slots(
    contract: string,  // 0
    name: string,      // 1
    req: string,       // 2
    val: string,       // 3
    deadline: string,  // 4
    value: string)     // 5

  /** A single-key object `{key: value}` of a row's `vals`. */
  datatype Entry = Entry(key: string, value: string)

  /** The `{headers, vals}` record of one table row. */
  datatype Row = Row(headers: seq<string>, vals: seq<Entry>)

  const Keys := ["contract", "requester", "validator", "deadline", "value"]

  // ---------------------------------------------------------------------------
  // Specification of one row

  /** `shown` is the first `min(20, |original|)` characters of `original`
      followed by the ellipsis. */
  predicate Elided(shown: string, original: string) {
    && |shown| == Min(SliceWidth, |original|) + |Ellipsis|
    && shown[..|shown| - |Ellipsis|] <= original
    && shown[|shown| - |Ellipsis|..] == Ellipsis
  }

  /** `shown` is `text` itself when `text` has at most 23 characters, and
      otherwise its first 20 characters followed by the ellipsis. */
  predicate Abbreviated(shown: string, text: string) {
    if |text| <= NameLimit then shown == text
    else
      && |shown| == NameLimit
      && shown[..SliceWidth] == text[..SliceWidth]
      && shown[SliceWidth..] == Ellipsis
  }

  /** The text a row shows for the log's value, unit included. */
  function EtherText(log: Log, lib: Library): string {
    lib.fromWei(lib.toNumber(log.value), Unit) + Currency
  }

  /** `row` is the display record of `log`. */
  predicate Describes(row: Row, log: Log, lib: Library) {
    && |row.headers| == 2
    && |row.vals| == |Keys|
    && (forall j :: 0 <= j < |Keys| ==> row.vals[j].key == Keys[j])
    && Abbreviated(row.headers[0], lib.toAscii(StripTrailingZeros(log.name)))
    && row.headers[1] == EtherText(log, lib)
    && Elided(row.vals[0].value, log.contract)
    && Elided(row.vals[1].value, log.req)
    && Elided(row.vals[2].value, log.val)
    && row.vals[3].value == lib.moment(lib.toNumber(log.deadline), DeadlineFormat)
    && row.vals[4].value == row.headers[1]
  }

  // ---------------------------------------------------------------------------
  // The formatter as written

  /** `s.slice(0, 20) + "..."`, applied to the three address slots whatever
      their length. */
  function TruncateAddress(s: string): (r: string)
    ensures Elided(r, s)
  {
    SliceTo(s, SliceWidth) + Ellipsis
  }

  /** The ellipsis is appended even to an address that needs no shortening. */
  lemma ShortAddressStillElided(s: string)
    requires |s| <= SliceWidth
    ensures TruncateAddress(s) == s + Ellipsis
    ensures TruncateAddress(s) != s
  {
  }

  /** The conditional shortening of the decoded name. */
  function ShortenName(t: string): (r: string)
    ensures Abbreviated(r, t)
  {
    if |t| > NameLimit then SliceTo(t, SliceWidth) + Ellipsis else t
  }

  /** A shortened name is never shortened again. */
  lemma ShortenNameIdempotent(t: string)
    ensures ShortenName(ShortenName(t)) == ShortenName(t)
  {
  }

  /** A name is left alone exactly when it has at most 23 characters. */
  lemma ShortenNameFixedIff(t: string)
    ensures ShortenName(t) == t <==> |t| <= NameLimit
  {
  }

  /** Slot 1 after the second map: strip the trailing `'0'`s of the raw hex,
      decode it, shorten it. */
  function DecodeName(raw: string, lib: Library): (r: string)
    ensures Abbreviated(r, lib.toAscii(StripTrailingZeros(raw)))
  {
    ShortenName(lib.toAscii(StripTrailingZeros(raw)))
  }

  /** The first map: the six-slot array of a log. Slots 0-3 carry the raw
      `_contract`, `_name`, `_req` and `_val`; slots 4 and 5 hold the
      converted deadline and value. */
  function ToSlots(log: Log, lib: Library): (t: Slots)
    ensures t.contract == log.contract && t.name == log.name
    ensures t.req == log.req && t.val == log.val
    ensures t.deadline == lib.moment(lib.toNumber(log.deadline), DeadlineFormat)
    ensures t.value == lib.fromWei(lib.toNumber(log.value), Unit)
  {
    Slots(
      log.contract,
      log.name,
      log.req,
      log.val,
      lib.moment(lib.toNumber(log.deadline), DeadlineFormat),
      lib.fromWei(lib.toNumber(log.value), Unit))
  }

  /** `row` is the display record the second map builds from the six slots `t`. */
  predicate Shows(row: Row, t: Slots, lib: Library) {
    && |row.headers| == 2
    && |row.vals| == |Keys|
    && (forall j :: 0 <= j < |Keys| ==> row.vals[j].key == Keys[j])
    && Abbreviated(row.headers[0], lib.toAscii(StripTrailingZeros(t.name)))
    && row.headers[1] == t.value + Currency
    && Elided(row.vals[0].value, t.contract)
    && Elided(row.vals[1].value, t.req)
    && Elided(row.vals[2].value, t.val)
    && row.vals[3].value == t.deadline
    && row.vals[4].value == row.headers[1]
  }

  /** The second map: rewrite slots 0, 2, 3 and 1 and assemble the record. */
  function ToRow(t: Slots, lib: Library): (row: Row)
    ensures Shows(row, t, lib)
  {
    var contract := TruncateAddress(t.contract);
    var req := TruncateAddress(t.req);
    var val := TruncateAddress(t.val);
    var name := DecodeName(t.name, lib);
    Row(
      [name, t.value + Currency],
      [ Entry(Keys[0], contract),
        Entry(Keys[1], req),
        Entry(Keys[2], val),
        Entry(Keys[3], t.deadline),
        Entry(Keys[4], t.value + Currency) ])
  }

  /** Both maps applied to one log. */
  function FormatLog(log: Log, lib: Library): (row: Row)
    ensures Describes(row, log, lib)
  {
    ToRow(ToSlots(log, lib), lib)
  }

  /** The whole pipeline: `logs.reverse()`, then the two maps. Row `i` is the
      record of log `n - 1 - i`; no log is dropped. */
  function FormatLogs(logs: seq<Log>, lib: Library): (rows: seq<Row>)
    ensures |rows| == |logs|
    ensures forall i :: 0 <= i < |rows| ==> rows[i] == FormatLog(logs[|logs| - 1 - i], lib)
  {
    var reversed := Reverse(logs);
    var table := Map((log: Log) => ToSlots(log, lib), reversed);
    Map((t: Slots) => ToRow(t, lib), table)
  }

  // ---------------------------------------------------------------------------
  // The specification determines the rows

  lemma ElidedUnique(a: string, b: string, original: string)
    requires Elided(a, original) && Elided(b, original)
    ensures a == b
  {
  }

  lemma AbbreviatedUnique(a: string, b: string, text: string)
    requires Abbreviated(a, text) && Abbreviated(b, text)
    ensures a == b
  {
  }

  /** At most one row describes a log, so `Describes` is a complete
      specification of the formatter. */
  lemma DescribesUnique(r1: Row, r2: Row, log: Log, lib: Library)
    requires Describes(r1, log, lib) && Describes(r2, log, lib)
    ensures r1 == r2
  {
    AbbreviatedUnique(r1.headers[0], r2.headers[0], lib.toAscii(StripTrailingZeros(log.name)));
    ElidedUnique(r1.vals[0].value, r2.vals[0].value, log.contract);
    ElidedUnique(r1.vals[1].value, r2.vals[1].value, log.req);
    ElidedUnique(r1.vals[2].value, r2.vals[2].value, log.val);
    assert r1.headers == r2.headers;
    forall j | 0 <= j < |Keys|
      ensures r1.vals[j] == r2.vals[j]
    {
    }
    assert r1.vals == r2.vals;
  }

  /** A table is the formatter's output for `logs` exactly when it has one row
      per log and row `i` describes log `n - 1 - i`. */
  lemma FormatLogsCharacterized(logs: seq<Log>, lib: Library, rows: seq<Row>)
    ensures rows == FormatLogs(logs, lib) <==>
              && |rows| == |logs|
              && forall i :: 0 <= i < |rows| ==> Describes(rows[i], logs[|logs| - 1 - i], lib)
  {
    var expected := FormatLogs(logs, lib);
    if |rows| == |logs| && forall i :: 0 <= i < |rows| ==> Describes(rows[i], logs[|logs| - 1 - i], lib) {
      forall i | 0 <= i < |rows|
        ensures rows[i] == expected[i]
      {
        DescribesUnique(rows[i], expected[i], logs[|logs| - 1 - i], lib);
      }
    }
  }

  /** Formatting the reversed logs gives the rows in the opposite order: the
      first row is built from the newest log. */
  lemma FormatLogsOfReversed(logs: seq<Log>, lib: Library)
    ensures FormatLogs(Reverse(logs), lib) == Reverse(FormatLogs(logs, lib))
  {
  }
}
