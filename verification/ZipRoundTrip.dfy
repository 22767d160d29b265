/** Reading back what a writer of the format writes. */
module ZipRoundTrip {
  import opened Bytes
  import opened Text
  import opened ZipReader

  /**
   * One entry: its name, method and packed data, its two extra fields and its comment, and the fields the reader
   * does not look at, as they stand in its two headers.
   */
  datatype Entry = Entry(
    name: seq<Byte>, method_: nat, data: seq<Byte>, localExtra: seq<Byte>, extra: seq<Byte>, comment: seq<Byte>,
    local4: seq<Byte>, local16: seq<Byte>, central16: seq<Byte>, central4: seq<Byte>, central8: seq<Byte>)

  /** Every length fits the field that records it. */
  predicate Fits(e: Entry) {
    && |e.name| < 0x1_0000 && |e.localExtra| < 0x1_0000 && |e.extra| < 0x1_0000 && |e.comment| < 0x1_0000
    && e.method_ < 0x1_0000 && |e.data| < 0x1_0000_0000
    && |e.local4| == 4 && |e.local16| == 16 && |e.central16| == 16 && |e.central4| == 4 && |e.central8| == 8
  }

  function LocalHeader(e: Entry): (r: seq<Byte>)
    requires Fits(e)
    ensures |r| == 30
  {
    U32(LOCAL_SIGNATURE) + e.local4 + U16(e.method_) + e.local16 + U16(|e.name|) + U16(|e.localExtra|)
  }

  function Local(e: Entry): seq<Byte>
    requires Fits(e)
  {
    LocalHeader(e) + (e.name + e.localExtra) + e.data
  }

  function CentralHeader(e: Entry, offset: nat): (r: seq<Byte>)
    requires Fits(e) && offset < 0x1_0000_0000
    ensures |r| == 46
  {
    (U32(CENTRAL_SIGNATURE) + e.central16 + U32(|e.data|) + e.central4)
    + (U16(|e.name|) + U16(|e.extra|) + U16(|e.comment|) + e.central8 + U32(offset))
  }

  function Central(e: Entry, offset: nat): seq<Byte>
    requires Fits(e) && offset < 0x1_0000_0000
  {
    CentralHeader(e, offset) + e.name + (e.extra + e.comment)
  }

  predicate AllFit(es: seq<Entry>) {
    forall i | 0 <= i < |es| :: Fits(es[i])
  }

  function Locals(es: seq<Entry>, n: nat): seq<Byte>
    requires n <= |es| && AllFit(es)
  {
    if n == 0 then [] else Locals(es, n - 1) + Local(es[n - 1])
  }

  /** The local header offsets, after whatever precedes the archive proper. */
  function Offset(es: seq<Entry>, prefix: nat, i: nat): nat
    requires i <= |es| && AllFit(es)
  {
    prefix + |Locals(es, i)|
  }

  /** Every offset and every count fits its field. */
  predicate Addressable(es: seq<Entry>, prefix: nat) {
    && AllFit(es) && |es| < 0x1_0000
    && (forall i | 0 <= i <= |es| :: Offset(es, prefix, i) < 0x1_0000_0000)
  }

  function Centrals(es: seq<Entry>, prefix: nat, n: nat): seq<Byte>
    requires n <= |es| && Addressable(es, prefix)
  {
    if n == 0 then [] else Centrals(es, prefix, n - 1) + Central(es[n - 1], Offset(es, prefix, n - 1))
  }

  predicate Writable(prefix: seq<Byte>, es: seq<Entry>, comment: seq<Byte>) {
    && Addressable(es, |prefix|) && |Centrals(es, |prefix|, |es|)| < 0x1_0000_0000 && |comment| < 0x1_0000
  }

  function EndRecord(prefix: seq<Byte>, es: seq<Entry>, comment: seq<Byte>): (r: seq<Byte>)
    requires Writable(prefix, es, comment)
    ensures |r| == 22
  {
    (U32(END_SIGNATURE) + U16(0) + U16(0) + U16(|es|)) + U16(|es|) + U32(|Centrals(es, |prefix|, |es|)|)
    + U32(Offset(es, |prefix|, |es|)) + U16(|comment|)
  }

  function Body(prefix: seq<Byte>, es: seq<Entry>): seq<Byte>
    requires Addressable(es, |prefix|)
  {
    prefix + Locals(es, |es|) + Centrals(es, |prefix|, |es|)
  }

  function Archive(prefix: seq<Byte>, es: seq<Entry>, comment: seq<Byte>): seq<Byte>
    requires Writable(prefix, es, comment)
  {
    Body(prefix, es) + (EndRecord(prefix, es, comment) + comment)
  }

  // ---- where the records stand ----

  lemma {:induction false} LocalsHold(es: seq<Entry>, n: nat, i: nat)
    requires i < n <= |es| && AllFit(es)
    ensures OccursAt(Locals(es, n), Local(es[i]), |Locals(es, i)|)
    decreases n
  {
    hide Local;
    var before := Locals(es, n - 1);
    if i == n - 1 {
      OccursMiddle(before, Local(es[i]), []);
      assert before + Local(es[i]) + [] == Locals(es, n);
    } else {
      LocalsHold(es, n - 1, i);
      OccursPrefix(before, Local(es[n - 1]), Local(es[i]), |Locals(es, i)|);
    }
  }

  lemma {:induction false} CentralsHold(es: seq<Entry>, prefix: nat, n: nat, i: nat)
    requires i < n <= |es| && Addressable(es, prefix)
    ensures OccursAt(Centrals(es, prefix, n), Central(es[i], Offset(es, prefix, i)), |Centrals(es, prefix, i)|)
    decreases n
  {
    hide Central, Offset;
    var before, mine := Centrals(es, prefix, n - 1), Central(es[i], Offset(es, prefix, i));
    if i == n - 1 {
      OccursMiddle(before, mine, []);
      assert before + mine + [] == Centrals(es, prefix, n);
    } else {
      CentralsHold(es, prefix, n - 1, i);
      OccursPrefix(before, Central(es[n - 1], Offset(es, prefix, n - 1)), mine, |Centrals(es, prefix, i)|);
    }
  }

  lemma InBody(prefix: seq<Byte>, es: seq<Entry>, comment: seq<Byte>, i: nat)
    requires Writable(prefix, es, comment) && i < |es|
    ensures var zip := Archive(prefix, es, comment);
            && OccursAt(zip, Local(es[i]), Offset(es, |prefix|, i))
            && OccursAt(zip, Central(es[i], Offset(es, |prefix|, i)),
                        Offset(es, |prefix|, |es|) + |Centrals(es, |prefix|, i)|)
  {
    hide Local, Central, EndRecord, Archive, Locals, Centrals, OccursAt;
    var l, c := Locals(es, |es|), Centrals(es, |prefix|, |es|);
    LocalsHold(es, |es|, i);
    CentralsHold(es, |prefix|, |es|, i);
    PartsOfArchive(prefix, es, comment);
    OccursWithin(Archive(prefix, es, comment), l, |prefix|, Local(es[i]), |Locals(es, i)|);
    OccursWithin(Archive(prefix, es, comment), c, |prefix| + |l|,
                 Central(es[i], Offset(es, |prefix|, i)), |Centrals(es, |prefix|, i)|);
  }

  lemma PartsOfArchive(prefix: seq<Byte>, es: seq<Entry>, comment: seq<Byte>)
    requires Writable(prefix, es, comment)
    ensures var zip, l, c := Archive(prefix, es, comment), Locals(es, |es|), Centrals(es, |prefix|, |es|);
            OccursAt(zip, l, |prefix|) && OccursAt(zip, c, |prefix| + |l|)
  {
    hide EndRecord, Locals, Centrals;
    var l, c, tail := Locals(es, |es|), Centrals(es, |prefix|, |es|), EndRecord(prefix, es, comment) + comment;
    var zip := Archive(prefix, es, comment);
    assert prefix + l + (c + tail) == zip;
    OccursMiddle(prefix, l, c + tail);
    assert prefix + l + c + tail == zip;
    OccursMiddle(prefix + l, c, tail);
  }

  // ---- reading the fields of a record that stands at `at` ----

  lemma LocalFields(zip: seq<Byte>, e: Entry, at: nat)
    requires Fits(e) && OccursAt(zip, Local(e), at)
    ensures at + 30 <= |zip|
    ensures Read32(zip, at) == LOCAL_SIGNATURE && Read16(zip, at + 8) == e.method_
    ensures Read16(zip, at + 26) == |e.name| && Read16(zip, at + 28) == |e.localExtra|
    ensures OccursAt(zip, e.data, at + 30 + |e.name| + |e.localExtra|)
  {
    hide U16, U32, Read16, Read32;
    var h, names := LocalHeader(e), e.name + e.localExtra;
    assert OccursAt(Local(e), h, 0) by { assert Local(e) == [] + h + (names + e.data); OccursMiddle([], h, names + e.data); }
    OccursWithin(zip, Local(e), at, h, 0);
    OccursMiddle(h + names, e.data, []);
    assert h + names + e.data + [] == Local(e);
    OccursWithin(zip, Local(e), at, e.data, 30 + |names|);
    LocalHeaderFields(e);
    OccursWithin(zip, h, at, U32(LOCAL_SIGNATURE), 0);
    OccursWithin(zip, h, at, U16(e.method_), 8);
    OccursWithin(zip, h, at, U16(|e.name|), 26);
    OccursWithin(zip, h, at, U16(|e.localExtra|), 28);
    Read32Back(zip, at, LOCAL_SIGNATURE);
    Read16Back(zip, at + 8, e.method_);
    Read16Back(zip, at + 26, |e.name|);
    Read16Back(zip, at + 28, |e.localExtra|);
  }

  lemma LocalHeaderFields(e: Entry)
    requires Fits(e)
    ensures var h := LocalHeader(e);
            && OccursAt(h, U32(LOCAL_SIGNATURE), 0) && OccursAt(h, U16(e.method_), 8)
            && OccursAt(h, U16(|e.name|), 26) && OccursAt(h, U16(|e.localExtra|), 28)
  {
    hide U16, U32;
  }

  lemma CentralFields(zip: seq<Byte>, e: Entry, offset: nat, at: nat)
    requires Fits(e) && offset < 0x1_0000_0000 && OccursAt(zip, Central(e, offset), at)
    ensures at + 46 <= |zip|
    ensures Read32(zip, at) == CENTRAL_SIGNATURE && Read32(zip, at + 20) == |e.data|
    ensures Read16(zip, at + 28) == |e.name| && Read16(zip, at + 30) == |e.extra| && Read16(zip, at + 32) == |e.comment|
    ensures Read32(zip, at + 42) == offset
    ensures OccursAt(zip, e.name, at + 46)
  {
    hide U16, U32, Read16, Read32;
    var h, c := CentralHeader(e, offset), Central(e, offset);
    assert c == [] + h + (e.name + (e.extra + e.comment));
    OccursMiddle([], h, e.name + (e.extra + e.comment));
    OccursWithin(zip, c, at, h, 0);
    OccursMiddle(h, e.name, e.extra + e.comment);
    OccursWithin(zip, c, at, e.name, 46);
    CentralHeaderFields(e, offset);
    OccursWithin(zip, h, at, U32(CENTRAL_SIGNATURE), 0);
    OccursWithin(zip, h, at, U32(|e.data|), 20);
    OccursWithin(zip, h, at, U16(|e.name|), 28);
    OccursWithin(zip, h, at, U16(|e.extra|), 30);
    OccursWithin(zip, h, at, U16(|e.comment|), 32);
    OccursWithin(zip, h, at, U32(offset), 42);
    Read32Back(zip, at, CENTRAL_SIGNATURE);
    Read32Back(zip, at + 20, |e.data|);
    Read16Back(zip, at + 28, |e.name|);
    Read16Back(zip, at + 30, |e.extra|);
    Read16Back(zip, at + 32, |e.comment|);
    Read32Back(zip, at + 42, offset);
  }

  lemma CentralHeaderFields(e: Entry, offset: nat)
    requires Fits(e) && offset < 0x1_0000_0000
    ensures var h := CentralHeader(e, offset);
            && OccursAt(h, U32(CENTRAL_SIGNATURE), 0) && OccursAt(h, U32(|e.data|), 20)
            && OccursAt(h, U16(|e.name|), 28) && OccursAt(h, U16(|e.extra|), 30) && OccursAt(h, U16(|e.comment|), 32)
            && OccursAt(h, U32(offset), 42)
  {
    hide U16, U32;
    var a := U32(CENTRAL_SIGNATURE) + e.central16 + U32(|e.data|) + e.central4;
    var b := U16(|e.name|) + U16(|e.extra|) + U16(|e.comment|) + e.central8 + U32(offset);
    assert |a| == 28 && CentralHeader(e, offset) == a + b;
    OccursPrefix(a, b, U32(CENTRAL_SIGNATURE), 0);
    OccursPrefix(a, b, U32(|e.data|), 20);
    OccursMiddle(a, b, []);
    assert a + b + [] == a + b;
    OccursWithin(a + b, b, 28, U16(|e.name|), 0);
    OccursWithin(a + b, b, 28, U16(|e.extra|), 2);
    OccursWithin(a + b, b, 28, U16(|e.comment|), 4);
    OccursWithin(a + b, b, 28, U32(offset), 14);
  }

  lemma EndFields(prefix: seq<Byte>, es: seq<Entry>, comment: seq<Byte>)
    requires Writable(prefix, es, comment)
    ensures var zip, at := Archive(prefix, es, comment), |Body(prefix, es)|;
            && |zip| == at + 22 + |comment|
            && Read32(zip, at) == END_SIGNATURE && Read16(zip, at + 10) == |es|
            && Read32(zip, at + 16) == Offset(es, |prefix|, |es|)
  {
    hide U16, U32, Read16, Read32, Body, Centrals, Offset;
    var zip, body, end := Archive(prefix, es, comment), Body(prefix, es), EndRecord(prefix, es, comment);
    OccursMiddle(body, end, comment);
    assert body + end + comment == zip;
    EndRecordFields(prefix, es, comment);
    OccursWithin(zip, end, |body|, U32(END_SIGNATURE), 0);
    OccursWithin(zip, end, |body|, U16(|es|), 10);
    OccursWithin(zip, end, |body|, U32(Offset(es, |prefix|, |es|)), 16);
    Read32Back(zip, |body|, END_SIGNATURE);
    Read16Back(zip, |body| + 10, |es|);
    Read32Back(zip, |body| + 16, Offset(es, |prefix|, |es|));
  }

  lemma EndRecordFields(prefix: seq<Byte>, es: seq<Entry>, comment: seq<Byte>)
    requires Writable(prefix, es, comment)
    ensures var end := EndRecord(prefix, es, comment);
            && OccursAt(end, U32(END_SIGNATURE), 0) && OccursAt(end, U16(|es|), 10)
            && OccursAt(end, U32(Offset(es, |prefix|, |es|)), 16)
  {
    hide U16, U32, Centrals, Offset;
  }

  // ---- the round trip ----

  /** What the reader returns for an entry it has found. */
  function Unpacked(e: Entry, codec: Codec): Result<seq<Byte>, ZipError> {
    if e.method_ == STORED then Ok(e.data)
    else if e.method_ == DEFLATED then Ok(codec.inflate(e.data))
    else Err(UnsupportedMethod(e.method_))
  }

  /** The first entry from `i` on whose name decodes to the wanted one. */
  function Lookup(es: seq<Entry>, i: nat, wanted: string, codec: Codec): Result<seq<Byte>, ZipError>
    requires i <= |es|
    decreases |es| - i
  {
    if i == |es| then Err(EntryNotFound)
    else if codec.decode(es[i].name) == wanted then Unpacked(es[i], codec)
    else Lookup(es, i + 1, wanted, codec)
  }

  /** The records of entry `i` stand where the writer puts them. */
  ghost predicate Holds(zip: seq<Byte>, es: seq<Entry>, prefix: nat, i: nat)
    requires Addressable(es, prefix) && i < |es|
  {
    && OccursAt(zip, Local(es[i]), Offset(es, prefix, i))
    && OccursAt(zip, Central(es[i], Offset(es, prefix, i)), HeaderAt(es, prefix, i))
  }

  function HeaderAt(es: seq<Entry>, prefix: nat, i: nat): nat
    requires Addressable(es, prefix) && i <= |es|
  {
    Offset(es, prefix, |es|) + |Centrals(es, prefix, i)|
  }

  lemma HeaderAfter(es: seq<Entry>, prefix: nat, i: nat)
    requires Addressable(es, prefix) && i < |es|
    ensures HeaderAt(es, prefix, i + 1) ==
            HeaderAt(es, prefix, i) + 46 + |es[i].name| + |es[i].extra| + |es[i].comment|
  {
  }

  lemma {:induction false} DirectoryReadsBack(zip: seq<Byte>, es: seq<Entry>, prefix: nat, i: nat, wanted: string, codec: Codec)
    requires Addressable(es, prefix) && i <= |es|
    requires forall k | i <= k < |es| :: Holds(zip, es, prefix, k)
    ensures FindEntry(zip, HeaderAt(es, prefix, i), |es| - i, wanted, codec) == Lookup(es, i, wanted, codec)
    decreases |es| - i
  {
    hide Read16, Read32, Local, Central, LocalData, Subarray, Offset, Centrals, HeaderAt, Holds;
    if i < |es| {
      hide FindEntry, Addressable;
      EntryStep(zip, es, prefix, i, wanted, codec);
      DirectoryReadsBack(zip, es, prefix, i + 1, wanted, codec);
    }
  }

  lemma EntryStep(zip: seq<Byte>, es: seq<Entry>, prefix: nat, i: nat, wanted: string, codec: Codec)
    requires Addressable(es, prefix) && i < |es| && Holds(zip, es, prefix, i)
    ensures FindEntry(zip, HeaderAt(es, prefix, i), |es| - i, wanted, codec) ==
            if codec.decode(es[i].name) == wanted then Unpacked(es[i], codec)
            else FindEntry(zip, HeaderAt(es, prefix, i + 1), |es| - (i + 1), wanted, codec)
  {
    hide Read16, Read32, Local, Central, FindEntry, Offset, Centrals, HeaderAt, Fits, Unpacked, OccursAt;
    HeaderAfter(es, prefix, i);
    var e, at, next := es[i], HeaderAt(es, prefix, i), HeaderAt(es, prefix, i + 1);
    HeaderStep(zip, e, Offset(es, prefix, i), at, |es| - i, wanted, codec);
    assert at + 46 + |e.name| + |e.extra| + |e.comment| == next;
    assert |es| - i - 1 == |es| - (i + 1);
  }

  /** One central header either names the wanted entry or leads to the next header. */
  lemma HeaderStep(zip: seq<Byte>, e: Entry, offset: nat, at: nat, left: nat, wanted: string, codec: Codec)
    requires left > 0 && Fits(e) && offset < 0x1_0000_0000
    requires OccursAt(zip, Central(e, offset), at) && OccursAt(zip, Local(e), offset)
    ensures FindEntry(zip, at, left, wanted, codec) ==
            if codec.decode(e.name) == wanted then Unpacked(e, codec)
            else FindEntry(zip, at + 46 + |e.name| + |e.extra| + |e.comment|, left - 1, wanted, codec)
  {
    hide Read16, Read32, Local, Central, LocalData;
    CentralFields(zip, e, offset, at);
    SubarrayIs(zip, e.name, at + 46);
    LocalReadsBack(zip, e, offset, codec);
  }

  lemma SubarrayIs(zip: seq<Byte>, part: seq<Byte>, at: nat)
    requires OccursAt(zip, part, at)
    ensures Subarray(zip, at, at + |part|) == part
  {
  }

  lemma LocalReadsBack(zip: seq<Byte>, e: Entry, at: nat, codec: Codec)
    requires Fits(e) && OccursAt(zip, Local(e), at)
    ensures LocalData(zip, at, |e.data|, codec) == Unpacked(e, codec)
  {
    hide Read16, Read32, Local;
    LocalFields(zip, e, at);
    SubarrayIs(zip, e.data, at + 30 + |e.name| + |e.localExtra|);
  }

  /** No later place inside the end record and the comment carries the end signature. */
  ghost predicate NoLaterSignature(prefix: seq<Byte>, es: seq<Entry>, comment: seq<Byte>)
    requires Writable(prefix, es, comment)
  {
    forall k: nat | 0 < k <= |comment| :: Read32(EndRecord(prefix, es, comment) + comment, k) != END_SIGNATURE
  }

  /** The backward search stops at the archive's own end record exactly when no later place carries its signature. */
  lemma OwnEndFound(prefix: seq<Byte>, es: seq<Entry>, comment: seq<Byte>)
    requires Writable(prefix, es, comment)
    ensures EndFoundAt(Archive(prefix, es, comment), |Body(prefix, es)|) <==> NoLaterSignature(prefix, es, comment)
  {
    hide Read16, EndRecord, Body;
    var zip, body, tail := Archive(prefix, es, comment), Body(prefix, es), EndRecord(prefix, es, comment) + comment;
    EndFields(prefix, es, comment);
    forall k: nat | 0 < k <= |comment| ensures Read32(zip, |body| + k) == Read32(tail, k) {
      assert forall i | 0 <= i < |tail| :: zip[|body| + i] == tail[i];
    }
    forall k: nat | |body| < k && k + 22 <= |zip| ensures Read32(zip, k) == Read32(tail, k - |body|) {
      assert 0 < k - |body| <= |comment|;
      assert |body| + (k - |body|) == k;
    }
    if EndFoundAt(zip, |body|) {
      forall k: nat | 0 < k <= |comment| ensures Read32(tail, k) != END_SIGNATURE {
        assert Read32(zip, |body| + k) == Read32(tail, k);
      }
    }
  }

  /** An archive without a comment always reads back. */
  lemma NoCommentNoTrouble(prefix: seq<Byte>, es: seq<Entry>)
    requires Writable(prefix, es, [])
    ensures NoLaterSignature(prefix, es, [])
  {
  }

  /**
   * The reader inverts the writer: for every archive whose end record is the one found, reading a name gives the
   * unpacked data of the first entry of that name, and the not-found error exactly when there is none.
   */
  lemma ReadsBack(prefix: seq<Byte>, es: seq<Entry>, comment: seq<Byte>, wanted: string, codec: Codec)
    requires Writable(prefix, es, comment) && NoLaterSignature(prefix, es, comment)
    ensures var zip := Archive(prefix, es, comment);
            exists end: nat :: EndFoundAt(zip, end)
              && FindEntry(zip, Read32(zip, end + 16), Read16(zip, end + 10), wanted, codec) == Lookup(es, 0, wanted, codec)
  {
    AllHold(prefix, es, comment);
    hide Writable, EndRecord, Lookup, NoLaterSignature, HeaderAt, Centrals, Read16, Read32, FindEntry, Archive, Body, EndFoundAt, Holds, Offset;
    var zip, end := Archive(prefix, es, comment), |Body(prefix, es)|;
    OwnEndFound(prefix, es, comment);
    EndFields(prefix, es, comment);
    DirectoryReadsBack(zip, es, |prefix|, 0, wanted, codec);
    assert EndFoundAt(zip, end);
  }

  lemma AllHold(prefix: seq<Byte>, es: seq<Entry>, comment: seq<Byte>)
    requires Writable(prefix, es, comment)
    ensures forall k | 0 <= k < |es| :: Holds(Archive(prefix, es, comment), es, |prefix|, k)
  {
    hide Archive, Local, Central, Offset, Centrals, OccursAt;
    forall k | 0 <= k < |es| ensures Holds(Archive(prefix, es, comment), es, |prefix|, k) {
      InBody(prefix, es, comment, k);
    }
  }

  /** The same, through the reader itself. */
  method ReadBack(prefix: seq<Byte>, es: seq<Entry>, comment: seq<Byte>, wanted: string, codec: Codec)
    returns (r: Result<seq<Byte>, ZipError>)
    requires Writable(prefix, es, comment) && NoLaterSignature(prefix, es, comment)
    ensures r == Lookup(es, 0, wanted, codec)
  {
    ReadsBack(prefix, es, comment, wanted, codec);
    r := ReadZipEntry(Archive(prefix, es, comment), wanted, codec);
  }

  function Zeros(n: nat): (r: seq<Byte>)
    ensures |r| == n && forall i | 0 <= i < n :: r[i] == 0
  {
    seq(n, _ => 0)
  }

  /**
   * A comment that does not contain the signature is not enough: one of 0x4b50 bytes beginning 05 06 completes the
   * signature with its own length field, and the search stops two bytes before the comment.
   */
  lemma StraddlingSignature()
    ensures var comment: seq<Byte> := [5, 6] + Zeros(0x4b50 - 2);
            && Writable([], [], comment)
            && !Contains(comment, U32(END_SIGNATURE))
            && !NoLaterSignature([], [], comment)
  {
    var comment: seq<Byte> := [5, 6] + Zeros(0x4b50 - 2);
    assert Offset([], 0, 0) == 0;
    assert Writable([], [], comment);
    var end := EndRecord([], [], comment);
    var tail := end + comment;
    assert U16(0x4b50) == [0x50, 0x4b];
    assert tail[20] == 0x50 && tail[21] == 0x4b && tail[22] == 5 && tail[23] == 6;
    assert Read32(tail, 20) == END_SIGNATURE;
    assert U32(END_SIGNATURE) == [0x50, 0x4b, 5, 6];
    forall i: int ensures !OccursAt(comment, U32(END_SIGNATURE), i) {
      OccursElement(comment, U32(END_SIGNATURE), i, 0);
    }
  }
}
