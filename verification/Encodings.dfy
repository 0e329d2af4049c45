/** The byte strings that are fed to SHA-256: the length-prefixed fields of
    stableOperationKey, the records of digestRecords and the suffix-and-epoch key
    of mappingSecretRef. A hash is modelled by the bytes written to it, so what
    has to be shown is that different inputs write different bytes. */
module Encodings {

  type Byte = b: int | 0 <= b < 256

  const MAX_LENGTH := 0x1_0000_0000_0000_0000

  // ------------------------------------------------------------------
  // Separators and decimal numbers
  // ------------------------------------------------------------------

  // A separator that occurs in neither head splits two equal strings alike.
  lemma SplitAtSeparator<T>(a: seq<T>, x: seq<T>, b: seq<T>, y: seq<T>, separator: T)
    requires separator !in a && separator !in b
    requires a + [separator] + x == b + [separator] + y
    ensures a == b && x == y
  {
    var whole := a + [separator] + x;
    assert |a| == |b| by {
      assert whole[|a|] == separator && whole[|b|] == separator;
    }
    assert a == whole[..|a|] && x == whole[|a| + 1..];
    assert b == whole[..|b|] && y == whole[|b| + 1..];
  }

  lemma SplitAtLength<T>(a: seq<T>, x: seq<T>, b: seq<T>, y: seq<T>)
    requires |a| == |b| && a + x == b + y
    ensures a == b && x == y
  {
    assert a == (a + x)[..|a|] && x == (a + x)[|a|..];
    assert b == (b + y)[..|b|] && y == (b + y)[|b|..];
  }

  function Digit(d: nat): char
    requires d < 10
  {
    '0' + d as char
  }

  // strconv.FormatUint(n, 10), and %d of a non-negative number.
  function Decimal(n: nat): string {
    if n < 10 then [Digit(n)] else Decimal(n / 10) + [Digit(n % 10)]
  }

  function ParseDecimal(digits: string): int {
    if digits == [] then 0
    else 10 * ParseDecimal(digits[..|digits| - 1]) + (digits[|digits| - 1] as int - '0' as int)
  }

  lemma {:induction false} DecimalRoundTrip(n: nat)
    ensures ParseDecimal(Decimal(n)) == n
    ensures forall c :: c in Decimal(n) ==> '0' <= c <= '9'
  {
    if n < 10 {
      assert Decimal(n)[..0] == [];
    } else {
      DecimalRoundTrip(n / 10);
      assert Decimal(n)[..|Decimal(n)| - 1] == Decimal(n / 10);
    }
  }

  lemma DecimalInjective(m: nat, n: nat)
    requires Decimal(m) == Decimal(n)
    ensures m == n
  {
    DecimalRoundTrip(m);
    DecimalRoundTrip(n);
  }

  // ------------------------------------------------------------------
  // mappingSecretRef
  // ------------------------------------------------------------------

  const NUL: char := '\0'

  function SecretRefKey(suffix: string, epoch: nat): string {
    suffix + [NUL] + Decimal(epoch)
  }

  /** Different suffixes or epochs never share a secret reference. */
  lemma SecretRefKeyInjective(suffix: string, epoch: nat, suffix': string, epoch': nat)
    requires NUL !in suffix && NUL !in suffix'
    requires SecretRefKey(suffix, epoch) == SecretRefKey(suffix', epoch')
    ensures suffix == suffix' && epoch == epoch'
  {
    SplitAtSeparator(suffix, Decimal(epoch), suffix', Decimal(epoch'), NUL);
    DecimalInjective(epoch, epoch');
  }

  // ------------------------------------------------------------------
  // stableOperationKey
  // ------------------------------------------------------------------

  // n as count big-endian bytes.
  function BigEndian(n: nat, count: nat): (bytes: seq<Byte>)
    ensures |bytes| == count
  {
    if count == 0 then [] else BigEndian(n / 256, count - 1) + [n % 256]
  }

  function Power(count: nat): (power: nat)
    ensures power > 0
  {
    if count == 0 then 1 else 256 * Power(count - 1)
  }

  // A multiple of d that lies above another does so by at least d.
  lemma {:induction false} MultiplesApart(d: nat, a: int, b: int)
    requires a < b
    ensures d * a + d <= d * b
    decreases b - a
  {
    assert d * (a + 1) == d * a + d;
    if a + 1 < b {
      MultiplesApart(d, a + 1, b);
    }
  }

  lemma Quotient(d: nat, q: nat, r: nat)
    requires r < d
    ensures (d * q + r) / d == q
  {
    var k, m := (d * q + r) / d, (d * q + r) % d;
    assert d * k + m == d * q + r;
    if k < q {
      MultiplesApart(d, k, q);
    } else if q < k {
      MultiplesApart(d, q, k);
    }
  }

  lemma DivideTwice(n: nat, d: nat)
    requires d > 0
    ensures (n / 256) / d == n / (256 * d)
  {
    var m := n / 256;
    var q, r := m / d, m % d;
    assert m == d * q + r && n == 256 * m + n % 256;
    assert 256 * m == (256 * d) * q + 256 * r;
    assert 256 * r + n % 256 < 256 * d;
    Quotient(256 * d, q, 256 * r + n % 256);
  }

  /** The most significant byte comes first. */
  lemma {:induction false} BigEndianAt(n: nat, count: nat, i: nat)
    requires i < count
    ensures BigEndian(n, count)[i] == (n / Power(count - 1 - i)) % 256
  {
    if i < count - 1 {
      BigEndianAt(n / 256, count - 1, i);
      DivideTwice(n, Power(count - 2 - i));
    }
  }

  lemma {:induction false} BigEndianInjective(m: nat, n: nat, count: nat)
    requires m < Power(count) && n < Power(count)
    requires BigEndian(m, count) == BigEndian(n, count)
    ensures m == n
  {
    if count > 0 {
      var a, b := BigEndian(m / 256, count - 1), BigEndian(n / 256, count - 1);
      SplitAtLength<Byte>(a, [m % 256], b, [n % 256]);
      assert [m % 256][0] == [n % 256][0];
      BigEndianInjective(m / 256, n / 256, count - 1);
    }
  }

  lemma LengthFits()
    ensures Power(8) == MAX_LENGTH
  {
  }

  function FieldBytes(field: seq<Byte>): seq<Byte> {
    BigEndian(|field|, 8) + field
  }

  function FieldsBytes(fields: seq<seq<Byte>>): seq<Byte> {
    if fields == [] then [] else FieldBytes(fields[0]) + FieldsBytes(fields[1..])
  }

  lemma {:induction false} FieldsBytesAppend(fields: seq<seq<Byte>>, field: seq<Byte>)
    ensures FieldsBytes(fields + [field]) == FieldsBytes(fields) + FieldBytes(field)
  {
    if fields == [] {
      assert fields + [field] == [field];
      assert FieldsBytes([field][1..]) == [];
    } else {
      assert (fields + [field])[1..] == fields[1..] + [field];
      FieldsBytesAppend(fields[1..], field);
    }
  }

  // Strings of this machine have fewer than 2^64 bytes.
  ghost predicate Addressable(fields: seq<seq<Byte>>) {
    forall i :: 0 <= i < |fields| ==> |fields[i]| < MAX_LENGTH
  }

  lemma FieldSplit(f: seq<Byte>, rest: seq<Byte>, f': seq<Byte>, rest': seq<Byte>)
    requires |f| < MAX_LENGTH && |f'| < MAX_LENGTH
    requires FieldBytes(f) + rest == FieldBytes(f') + rest'
    ensures f == f' && rest == rest'
  {
    assert FieldBytes(f) + rest == BigEndian(|f|, 8) + (f + rest);
    assert FieldBytes(f') + rest' == BigEndian(|f'|, 8) + (f' + rest');
    SplitAtLength(BigEndian(|f|, 8), f + rest, BigEndian(|f'|, 8), f' + rest');
    LengthFits();
    BigEndianInjective(|f|, |f'|, 8);
    SplitAtLength(f, rest, f', rest');
  }

  /** stableOperationKey distinguishes any two lists of fields, whatever their
      lengths and contents. */
  lemma {:induction false} FieldsBytesInjective(fields: seq<seq<Byte>>, fields': seq<seq<Byte>>)
    requires Addressable(fields) && Addressable(fields')
    requires FieldsBytes(fields) == FieldsBytes(fields')
    ensures fields == fields'
  {
    if fields != [] && fields' != [] {
      FieldSplit(fields[0], FieldsBytes(fields[1..]), fields'[0], FieldsBytes(fields'[1..]));
      FieldsBytesInjective(fields[1..], fields'[1..]);
      assert fields == [fields[0]] + fields[1..] && fields' == [fields'[0]] + fields'[1..];
    }
  }

  /** stableOperationKey: written is what the running hash has received. */
  method StableOperationKey(fields: seq<seq<Byte>>) returns (written: seq<Byte>)
    ensures written == FieldsBytes(fields)
  {
    written := [];
    for i := 0 to |fields|
      invariant written == FieldsBytes(fields[..i])
    {
      assert fields[..i + 1] == fields[..i] + [fields[i]];
      FieldsBytesAppend(fields[..i], fields[i]);
      written := written + BigEndian(|fields[i]|, 8);
      written := written + fields[i];
      assert FieldsBytes(fields[..i]) + (BigEndian(|fields[i]|, 8) + fields[i])
          == FieldsBytes(fields[..i]) + BigEndian(|fields[i]|, 8) + fields[i];
    }
    assert fields[..|fields|] == fields;
  }

  lemma ShortLength(n: nat)
    requires n < 256
    ensures BigEndian(n, 8) == [0, 0, 0, 0, 0, 0, 0, n]
  {
    assert BigEndian(0, 3) == [0, 0, 0];
    assert BigEndian(0, 5) == BigEndian(0, 3) + [0] + [0];
    assert BigEndian(0, 7) == BigEndian(0, 5) + [0] + [0];
  }

  /** The bytes written for the two fields ab and c. */
  lemma KeyLayout()
    ensures FieldsBytes([[97, 98], [99]]) == [0, 0, 0, 0, 0, 0, 0, 2, 97, 98] + [0, 0, 0, 0, 0, 0, 0, 1, 99]
  {
    var a, b: seq<Byte> := [97, 98], [99];
    ShortLength(2);
    ShortLength(1);
    assert [a, b][1..] == [b] && [b][1..] == [];
    assert FieldsBytes([b]) == FieldBytes(b) + FieldsBytes([]);
    assert FieldsBytes([a, b]) == FieldBytes(a) + FieldsBytes([b]);
  }

  // ------------------------------------------------------------------
  // digestRecords
  // ------------------------------------------------------------------

  datatype FileRecord = FileRecord(path: string, mode: string, sha256: string, size: nat)

  predicate IsSha256Hex(value: string) {
    |value| == 64 && forall c :: c in value ==> '0' <= c <= '9' || 'a' <= c <= 'f'
  }

  // What recordsForTree produces: file system paths hold no NUL but may hold
  // newlines; modes are one of two; digests are lower-case hexadecimal.
  predicate WellFormed(record: FileRecord) {
    NUL !in record.path && (record.mode == "0644" || record.mode == "0755") && IsSha256Hex(record.sha256)
  }

  function RecordText(record: FileRecord): string {
    record.path + [NUL] + record.mode + [NUL] + Decimal(record.size) + [NUL] + record.sha256 + ['\n']
  }

  function RecordsText(records: seq<FileRecord>): string {
    if records == [] then [] else RecordText(records[0]) + RecordsText(records[1..])
  }

  lemma {:induction false} RecordsTextAppend(records: seq<FileRecord>, record: FileRecord)
    ensures RecordsText(records + [record]) == RecordsText(records) + RecordText(record)
  {
    if records == [] {
      assert records + [record] == [record];
      assert RecordsText([record][1..]) == [];
    } else {
      assert (records + [record])[1..] == records[1..] + [record];
      RecordsTextAppend(records[1..], record);
    }
  }

  /** The fields of a record stand in this order: path, mode, size and digest, with a
      NUL between them and a newline at the end. */
  lemma RecordLayout(record: FileRecord)
    requires WellFormed(record)
    ensures var text, path, size := RecordText(record), |record.path|, |Decimal(record.size)|;
            && |text| == path + size + 72
            && text[..path] == record.path && text[path] == NUL
            && text[path + 1..path + 5] == record.mode && text[path + 5] == NUL
            && ParseDecimal(text[path + 6..path + 6 + size]) == record.size && text[path + 6 + size] == NUL
            && text[path + 7 + size..path + 71 + size] == record.sha256 && text[path + 71 + size] == '\n'
  {
    DecimalRoundTrip(record.size);
    var text, path, size := RecordText(record), |record.path|, |Decimal(record.size)|;
    assert text[path + 6..path + 6 + size] == Decimal(record.size);
  }

  // What follows the path, the mode and the size of a record, up to rest.
  function AfterSize(record: FileRecord, rest: string): string {
    record.sha256 + (['\n'] + rest)
  }

  function AfterMode(record: FileRecord, rest: string): string {
    Decimal(record.size) + [NUL] + AfterSize(record, rest)
  }

  function AfterPath(record: FileRecord, rest: string): string {
    record.mode + [NUL] + AfterMode(record, rest)
  }

  lemma RecordTextFromPath(record: FileRecord, rest: string)
    ensures RecordText(record) + rest == record.path + [NUL] + AfterPath(record, rest)
  {
  }

  lemma RecordSplit(r: FileRecord, rest: string, r': FileRecord, rest': string)
    requires WellFormed(r) && WellFormed(r')
    requires RecordText(r) + rest == RecordText(r') + rest'
    ensures r == r' && rest == rest'
  {
    RecordTextFromPath(r, rest);
    RecordTextFromPath(r', rest');
    SplitAtSeparator(r.path, AfterPath(r, rest), r'.path, AfterPath(r', rest'), NUL);
    SplitAtSeparator(r.mode, AfterMode(r, rest), r'.mode, AfterMode(r', rest'), NUL);
    DecimalRoundTrip(r.size);
    DecimalRoundTrip(r'.size);
    SplitAtSeparator(Decimal(r.size), AfterSize(r, rest), Decimal(r'.size), AfterSize(r', rest'), NUL);
    DecimalInjective(r.size, r'.size);
    SplitAtLength(r.sha256, ['\n'] + rest, r'.sha256, ['\n'] + rest');
    SplitAtLength(['\n'], rest, ['\n'], rest');
  }

  /** digestRecords distinguishes any two lists of records, even when paths
      contain newlines that look like the end of a record. */
  lemma {:induction false} RecordsTextInjective(records: seq<FileRecord>, records': seq<FileRecord>)
    requires forall i :: 0 <= i < |records| ==> WellFormed(records[i])
    requires forall i :: 0 <= i < |records'| ==> WellFormed(records'[i])
    requires RecordsText(records) == RecordsText(records')
    ensures records == records'
  {
    if records != [] && records' != [] {
      RecordSplit(records[0], RecordsText(records[1..]), records'[0], RecordsText(records'[1..]));
      RecordsTextInjective(records[1..], records'[1..]);
      assert records == [records[0]] + records[1..] && records' == [records'[0]] + records'[1..];
    }
  }

  /** digestRecords: written is what the running hash has received. */
  method DigestRecords(records: seq<FileRecord>) returns (written: string)
    ensures written == RecordsText(records)
  {
    written := [];
    for i := 0 to |records|
      invariant written == RecordsText(records[..i])
    {
      assert records[..i + 1] == records[..i] + [records[i]];
      RecordsTextAppend(records[..i], records[i]);
      written := written + RecordText(records[i]);
    }
    assert records[..|records|] == records;
  }
}
