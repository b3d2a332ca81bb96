/**
  Objects without a format: sections with their contents, symbols with their names,
  and the table file that an object stands for.
 */
module Objects {
  import opened Bytes
  import opened Endian
  import opened Elf
  import opened Pieces
  import opened Table

  /** The definition record, its character arrays byte by byte. */
  datatype Record = Record(
    objectName: ByteString, tableName: ByteString, description: ByteString, filename: ByteString, objectSize: nat)

  /** A section's contents come in pieces: bytes that are the same in every format,
      and definition records, in which the object's size is a number in the file's
      byte order. */
  datatype Chunk = Plain(bytes: ByteString) | Definition(record: Record)

  datatype AbsSection = AbsSection(name: ByteString, kind: nat, content: seq<Chunk>)

  /** A symbol belongs to a section of the object, or has a section index of its
      own, as absolute, undefined and file symbols do. */
  datatype Home = User(section: nat) | Special(index: nat)

  datatype AbsSymbol = AbsSymbol(name: ByteString, home: Home, value: nat, size: nat, info: nat, other: nat)

  datatype AbsObject = AbsObject(etype: nat, machine: nat, sections: seq<AbsSection>, symbols: seq<AbsSymbol>)

  predicate ValidRecord(r: Record) {
    && |r.objectName| == 64 && |r.tableName| == 40 && |r.description| == 32 && |r.filename| == 20
    && r.objectSize < TWO_32
  }

  predicate ValidChunk(c: Chunk) {
    c.Definition? ==> ValidRecord(c.record)
  }

  predicate ValidContent(content: seq<Chunk>) {
    forall i :: 0 <= i < |content| ==> ValidChunk(content[i])
  }

  predicate HomeAmong(home: Home, sections: nat) {
    home.User? ==> home.section < sections
  }

  /** Records are complete, and symbols' sections are there. */
  predicate WellFormed(obj: AbsObject) {
    && (forall i :: 0 <= i < |obj.sections| ==> ValidContent(obj.sections[i].content))
    && (forall i :: 0 <= i < |obj.symbols| ==> HomeAmong(obj.symbols[i].home, |obj.sections|))
  }

  function SymbolNames(obj: AbsObject): (r: seq<ByteString>)
    ensures |r| == |obj.symbols| && forall i :: 0 <= i < |r| ==> r[i] == obj.symbols[i].name
  {
    seq(|obj.symbols|, i requires 0 <= i < |obj.symbols| => obj.symbols[i].name)
  }

  /** The section symbol `i` belongs to. */
  function HomeOf(obj: AbsObject, i: nat): (r: AbsSection)
    requires WellFormed(obj) && i < |obj.symbols| && obj.symbols[i].home.User?
    ensures ValidContent(r.content)
  {
    assert HomeAmong(obj.symbols[i].home, |obj.sections|);
    obj.sections[obj.symbols[i].home.section]
  }

  // ----- Contents without a format

  /** A chunk's bytes as far as they do not depend on the format. */
  function FixedChunk(c: Chunk): seq<Option<Byte>>
    requires ValidChunk(c)
  {
    match c
    case Plain(bytes) => Known(bytes)
    case Definition(r) => Known(RecordTexts(r)) + [None, None, None, None]
  }

  function Known(s: ByteString): (r: seq<Option<Byte>>)
    ensures |r| == |s| && forall k :: 0 <= k < |r| ==> r[k] == Some(s[k])
  {
    seq(|s|, k requires 0 <= k < |s| => Some(s[k]))
  }

  function RecordTexts(r: Record): (s: ByteString)
    requires ValidRecord(r)
    ensures |s| == DEF_SIZE - 4
  {
    r.objectName + r.tableName + r.description + r.filename
  }

  function Fixed(content: seq<Chunk>): seq<Option<Byte>>
    requires ValidContent(content)
  {
    if content == [] then []
    else Fixed(content[..|content| - 1]) + FixedChunk(content[|content| - 1])
  }

  /** The definition record that starts at `at`, if one does. */
  function RecordAt(content: seq<Chunk>, at: nat): (r: Option<Record>)
    requires ValidContent(content)
    ensures r.Some? ==> ValidRecord(r.value)
  {
    if content == [] then
      None
    else
      var init, last := content[..|content| - 1], content[|content| - 1];
      if last.Definition? && |Fixed(init)| == at then Some(last.record) else RecordAt(init, at)
  }

  /** `n` bytes from `at` on, none of which depends on the format. */
  predicate AllFixed(content: seq<Chunk>, at: nat, n: nat)
    requires ValidContent(content)
  {
    at + n <= |Fixed(content)| && forall k :: at <= k < at + n ==> Fixed(content)[k].Some?
  }

  function FixedBytes(content: seq<Chunk>, at: nat, n: nat): (r: ByteString)
    requires ValidContent(content) && AllFixed(content, at, n)
    ensures |r| == n
  {
    seq(n, k requires 0 <= k < n => Fixed(content)[at + k].value)
  }

  // ----- What the converter is to make of an object

  function MeaningOf(r: Record): (def: FileDef)
    requires ValidRecord(r)
    ensures |def.tableName| < 40 && |def.description| < 32 && def.objectSize < TWO_32
  {
    FileDef(ArrayText(r.objectName), ArrayText(r.tableName), ArrayText(r.description), r.objectSize)
  }

  predicate AbsBss(s: AbsSection) {
    s.name == Ascii(".bss")
  }

  predicate DefSized(s: AbsSymbol) {
    s.size == DEF_SIZE || s.size == 0
  }

  /** The definition symbol is the last of that name. */
  function DefOfNames(obj: AbsObject): (r: int)
    ensures -1 <= r < |obj.symbols|
  {
    DefIndex(SymbolNames(obj), |obj.symbols|)
  }

  /** The object symbol is the first match. */
  function ObjectOfNames(obj: AbsObject, wanted: ByteString): (r: nat)
    ensures r <= |obj.symbols|
  {
    ObjectIndex(SymbolNames(obj), wanted, 0)
  }

  /** If the definition symbol has a definition's size, it marks the start of a
      record somewhere in a section. */
  predicate DefClosed(obj: AbsObject)
    requires WellFormed(obj)
  {
    var d := DefOfNames(obj);
    d >= 0 && DefSized(obj.symbols[d]) ==>
      obj.symbols[d].home.User? && RecordAt(HomeOf(obj, d).content, obj.symbols[d].value).Some?
  }

  function AbsDef(obj: AbsObject): (r: Option<FileDef>)
    requires WellFormed(obj) && DefClosed(obj)
    ensures r.Some? ==> |r.value.tableName| < 40 && |r.value.description| < 32 && r.value.objectSize < TWO_32
  {
    var d := DefOfNames(obj);
    if d < 0 || !DefSized(obj.symbols[d]) then None
    else Some(MeaningOf(RecordAt(HomeOf(obj, d).content, obj.symbols[d].value).value))
  }

  /** The object's data, in whichever section and beside whatever else, are bytes of
      its section that do not depend on the format; in ".bss" there are none. */
  predicate ObjectClosed(obj: AbsObject, def: FileDef)
    requires WellFormed(obj)
  {
    var u := ObjectOfNames(obj, def.objectName);
    u < |obj.symbols| ==>
      var s := obj.symbols[u];
      && s.home.User?
      && var section := HomeOf(obj, u);
         (if AbsBss(section) then s.size < TWO_31
          else AllFixed(section.content, s.value, AgreedSize(s.size, def.objectSize)))
  }

  function AbsData(obj: AbsObject, def: FileDef): Option<ByteString>
    requires WellFormed(obj) && ObjectClosed(obj, def)
  {
    var u := ObjectOfNames(obj, def.objectName);
    if u == |obj.symbols| then None else
    var s, section := obj.symbols[u], HomeOf(obj, u);
    if AbsBss(section) then Some(Repeat(0, s.size))
    else Some(FixedBytes(section.content, s.value, AgreedSize(s.size, def.objectSize)))
  }

  /** Neither the definition nor the data depend on a format. */
  predicate Closed(obj: AbsObject)
    requires WellFormed(obj)
  {
    DefClosed(obj) && (AbsDef(obj).Some? ==> ObjectClosed(obj, AbsDef(obj).value))
  }

  /** The table file an object stands for. */
  function TableOf(o: Options, obj: AbsObject): Option<ByteString>
    requires ValidOptions(o) && WellFormed(obj) && Closed(obj)
  {
    var def :- AbsDef(obj);
    var data :- AbsData(obj, def);
    Some(TableFile(o, def, data))
  }

  // ----- Contents in a byte order

  function RecordBytes(r: Record, little: bool): (s: ByteString)
    requires ValidRecord(r)
    ensures |s| == DEF_SIZE
  {
    RecordTexts(r) + Encode(r.objectSize, 4, little)
  }

  function ChunkBytes(c: Chunk, little: bool): ByteString
    requires ValidChunk(c)
  {
    match c
    case Plain(bytes) => bytes
    case Definition(r) => RecordBytes(r, little)
  }

  function ContentBytes(content: seq<Chunk>, little: bool): ByteString
    requires ValidContent(content)
  {
    if content == [] then []
    else ContentBytes(content[..|content| - 1], little) + ChunkBytes(content[|content| - 1], little)
  }

  lemma FixedChunkIs(c: Chunk, little: bool)
    requires ValidChunk(c)
    ensures |FixedChunk(c)| == |ChunkBytes(c, little)|
    ensures forall k :: 0 <= k < |FixedChunk(c)| && FixedChunk(c)[k].Some? ==>
      FixedChunk(c)[k].value == ChunkBytes(c, little)[k]
  {
    hide Encode, RecordTexts;
  }

  /** The fixed bytes are what every format has there. */
  lemma {:induction false} FixedIs(content: seq<Chunk>, little: bool)
    requires ValidContent(content)
    ensures |Fixed(content)| == |ContentBytes(content, little)|
    ensures forall k :: 0 <= k < |Fixed(content)| && Fixed(content)[k].Some? ==>
      Fixed(content)[k].value == ContentBytes(content, little)[k]
    decreases |content|
  {
    hide FixedChunk, ChunkBytes;
    if content != [] {
      var init, last := content[..|content| - 1], content[|content| - 1];
      FixedIs(init, little);
      FixedChunkIs(last, little);
      forall k | 0 <= k < |Fixed(content)| && Fixed(content)[k].Some?
        ensures Fixed(content)[k].value == ContentBytes(content, little)[k]
      {
        if k < |Fixed(init)| {
          assert Fixed(init)[k].Some?;
        } else {
          assert FixedChunk(last)[k - |Fixed(init)|].Some?;
        }
      }
    }
  }

  /** A record found in the contents stands in every format's bytes. */
  lemma {:induction false} RecordStands(content: seq<Chunk>, at: nat, little: bool)
    requires ValidContent(content) && RecordAt(content, at).Some?
    ensures At(ContentBytes(content, little), at, RecordBytes(RecordAt(content, at).value, little))
    ensures at < |ContentBytes(content, little)|
    decreases |content|
  {
    hide RecordBytes, At, Fixed;
    var init, last := content[..|content| - 1], content[|content| - 1];
    var s := ContentBytes(init, little);
    FixedIs(init, little);
    if last.Definition? && |Fixed(init)| == at {
      AtEnd(s, RecordBytes(last.record, little));
    } else {
      RecordStands(init, at, little);
      AtPrefix(s, ChunkBytes(last, little), at, RecordBytes(RecordAt(init, at).value, little));
    }
  }

  lemma RecordReads(r: Record, little: bool)
    requires ValidRecord(r)
    ensures DecodeDef(RecordBytes(r, little), little) == MeaningOf(r)
  {
    hide ArrayText, Value, Encode;
    var s := RecordBytes(r, little);
    assert s[..64] == r.objectName && s[64..104] == r.tableName && s[104..136] == r.description;
    assert s[156..160] == Encode(r.objectSize, 4, little);
    Pow256Values();
    ValueOfEncode(r.objectSize, 4, little);
  }
}
