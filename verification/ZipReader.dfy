/**
 * The archive reader of scripts/docx-text.ts. Record layouts are those of APPNOTE.TXT, sections 4.3.7 (local file
 * header), 4.3.12 (central directory header) and 4.3.16 (end of central directory record).
 */
module ZipReader {
  import opened Bytes
  import opened Text

  const LOCAL_SIGNATURE: nat := 0x0403_4b50
  const CENTRAL_SIGNATURE: nat := 0x0201_4b50
  const END_SIGNATURE: nat := 0x0605_4b50
  const STORED: nat := 0
  const DEFLATED: nat := 8

  datatype ZipError =
    | NoEndRecord
    | BadCentralHeader(at: nat)
    | BadLocalHeader
    | UnsupportedMethod(method_: nat)
    | EntryNotFound
    | OutOfRange

  /** `at` is the last place, counted from the end, where a whole end record could begin and its signature stands. */
  ghost predicate EndFoundAt(zip: seq<Byte>, at: nat) {
    && at + 22 <= |zip| && Read32(zip, at) == END_SIGNATURE
    && forall k: nat | at < k && k + 22 <= |zip| :: Read32(zip, k) != END_SIGNATURE
  }

  method FindEndOfCentralDirectory(zip: seq<Byte>) returns (r: Option<nat>)
    ensures r.Some? ==> EndFoundAt(zip, r.value)
    ensures r.None? ==> forall k: nat | k + 22 <= |zip| :: Read32(zip, k) != END_SIGNATURE
  {
    var at := |zip| - 22;
    while at >= 0
      invariant at <= |zip| - 22
      invariant forall k: nat | at < k && k + 22 <= |zip| :: Read32(zip, k) != END_SIGNATURE
    {
      if Read32(zip, at) == END_SIGNATURE { return Some(at); }
      at := at - 1;
    }
    r := None;
  }

  /** `subarray`, which clamps both ends to the buffer. */
  function Subarray(zip: seq<Byte>, from: nat, to: nat): seq<Byte>
    requires from <= to
  {
    var n := |zip|;
    zip[(if from < n then from else n)..(if to < n then to else n)]
  }

  /** How the surroundings decode names and inflate data. */
  datatype Codec = Codec(decode: seq<Byte> -> string, inflate: seq<Byte> -> seq<Byte>)

  /** The entry whose local header is at `at`; reading past the end of the buffer throws. */
  function LocalData(zip: seq<Byte>, at: nat, size: nat, codec: Codec): Result<seq<Byte>, ZipError> {
    if at + 4 > |zip| then Err(OutOfRange)
    else if Read32(zip, at) != LOCAL_SIGNATURE then Err(BadLocalHeader)
    else if at + 30 > |zip| then Err(OutOfRange)
    else
      var dataAt := at + 30 + Read16(zip, at + 26) + Read16(zip, at + 28);
      var data := Subarray(zip, dataAt, dataAt + size);
      var method_ := Read16(zip, at + 8);
      if method_ == STORED then Ok(data)
      else if method_ == DEFLATED then Ok(codec.inflate(data))
      else Err(UnsupportedMethod(method_))
  }

  /** The bytes asked for, or as many as the buffer still has. */
  lemma SubarrayMeans(zip: seq<Byte>, from: nat, to: nat)
    requires from <= to
    ensures to <= |zip| ==> Subarray(zip, from, to) == zip[from..to]
    ensures from <= |zip| < to ==> Subarray(zip, from, to) == zip[from..]
    ensures |zip| < from ==> Subarray(zip, from, to) == []
  {
  }

  /** `PK`, 3, 4 */
  predicate LocalSignature(zip: seq<Byte>, at: nat) {
    at + 4 <= |zip| && zip[at] == 0x50 && zip[at + 1] == 0x4b && zip[at + 2] == 3 && zip[at + 3] == 4
  }

  /** What becomes of an entry found, byte by byte: its data as far as there are any, or the first thing that is wrong. */
  lemma LocalMeans(zip: seq<Byte>, at: nat, size: nat, codec: Codec)
    ensures var r, whole := LocalData(zip, at, size, codec), at + 30 <= |zip|;
            && (r == Err(BadLocalHeader) <==> at + 4 <= |zip| && !LocalSignature(zip, at))
            && (r == Err(OutOfRange) <==> at + 4 > |zip| || (LocalSignature(zip, at) && !whole))
            && (LocalSignature(zip, at) && whole ==>
                  var method_ := (zip[at + 8] as int) + 256 * (zip[at + 9] as int);
                  var from := at + 30 + (zip[at + 26] as int) + 256 * (zip[at + 27] as int)
                              + (zip[at + 28] as int) + 256 * (zip[at + 29] as int);
                  var data := if from + size <= |zip| then zip[from..from + size] else if from <= |zip| then zip[from..] else [];
                  r == if method_ == 0 then Ok(data) else if method_ == 8 then Ok(codec.inflate(data))
                       else Err(UnsupportedMethod(method_)))
  {
    if at + 30 <= |zip| {
      var from := at + 30 + Read16(zip, at + 26) + Read16(zip, at + 28);
      SubarrayMeans(zip, from, from + size);
    }
  }

  /** The central directory from `at` on, with `left` headers still to come. */
  function FindEntry(zip: seq<Byte>, at: nat, left: nat, wanted: string, codec: Codec): Result<seq<Byte>, ZipError>
    decreases left
  {
    if left == 0 then Err(EntryNotFound)
    else if at + 4 > |zip| then Err(OutOfRange)
    else if Read32(zip, at) != CENTRAL_SIGNATURE then Err(BadCentralHeader(at))
    else if at + 46 > |zip| then Err(OutOfRange)
    else
      var nameLength := Read16(zip, at + 28);
      if codec.decode(Subarray(zip, at + 46, at + 46 + nameLength)) == wanted then
        LocalData(zip, Read32(zip, at + 42), Read32(zip, at + 20), codec)
      else
        FindEntry(zip, at + 46 + nameLength + Read16(zip, at + 30) + Read16(zip, at + 32), left - 1, wanted, codec)
  }

  lemma EndUnique(zip: seq<Byte>, a: nat, b: nat)
    requires EndFoundAt(zip, a) && EndFoundAt(zip, b)
    ensures a == b
  {
  }

  /** The whole reader: its result follows from the end record that the backward search finds. */
  method ReadZipEntry(zip: seq<Byte>, wanted: string, codec: Codec) returns (r: Result<seq<Byte>, ZipError>)
    ensures forall end: nat | EndFoundAt(zip, end) ::
              r == FindEntry(zip, Read32(zip, end + 16), Read16(zip, end + 10), wanted, codec)
    ensures (forall k: nat | k + 22 <= |zip| :: Read32(zip, k) != END_SIGNATURE) ==> r == Err(NoEndRecord)
  {
    hide Read32, Read16, LocalData, Subarray;
    var found := FindEndOfCentralDirectory(zip);
    if found.None? { return Err(NoEndRecord); }
    var end := found.value;
    forall e: nat | EndFoundAt(zip, e) ensures e == end { EndUnique(zip, e, end); }
    var count: nat, at: nat := Read16(zip, end + 10), Read32(zip, end + 16);
    var index: nat := 0;
    while index < count
      invariant index <= count
      invariant FindEntry(zip, at, count - index, wanted, codec)
                == FindEntry(zip, Read32(zip, end + 16), count, wanted, codec)
    {
      if at + 4 > |zip| { return Err(OutOfRange); }
      if Read32(zip, at) != CENTRAL_SIGNATURE { return Err(BadCentralHeader(at)); }
      if at + 46 > |zip| { return Err(OutOfRange); }
      var nameLength, extraLength, commentLength := Read16(zip, at + 28), Read16(zip, at + 30), Read16(zip, at + 32);
      if codec.decode(Subarray(zip, at + 46, at + 46 + nameLength)) == wanted {
        return LocalData(zip, Read32(zip, at + 42), Read32(zip, at + 20), codec);
      }
      at := at + 46 + nameLength + extraLength + commentLength;
      index := index + 1;
    }
    r := Err(EntryNotFound);
  }
}
