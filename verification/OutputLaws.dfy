/**
  The table file and the definition record byte by byte, at their offsets: what each
  header word and text of a converted file is, and where in the object file the
  record's parts were.
 */
module OutputLaws {
  import opened Bytes
  import opened Endian
  import opened Elf
  import opened Pieces
  import opened Table
  import opened Converter

  // ----- Texts in arrays

  /** `t` is the text in the array `a`, of which the last byte does not count. */
  ghost predicate IsTextOf(t: ByteString, a: ByteString) {
    && |t| < |a| && t == a[..|t|] && NoZero(t)
    && (|t| == |a| - 1 || a[|t|] == 0)
  }

  lemma ArrayTextIs(a: ByteString)
    requires |a| > 0
    ensures IsTextOf(ArrayText(a), a)
  {
    var s := a[..|a| - 1];
    var n := Terminator(s, 0);
    assert s[0..n] == a[..n];
  }

  /** A cleared array into which the text `t` was copied. */
  ghost predicate HoldsText(out: ByteString, at: nat, n: nat, t: ByteString) {
    && at + n <= |out| && |t| < n && TextAt(out, at) == t
    && forall k :: at + |t| <= k < at + n ==> out[k] == 0
  }

  lemma PaddedHolds(out: ByteString, at: nat, n: nat, t: ByteString)
    requires |t| < n && NoZero(t) && At(out, at, Padded(t, n))
    ensures HoldsText(out, at, n, t)
  {
    hide TextAt, Terminator;
    var p := Padded(t, n);
    assert At(p, 0, t + [0]);
    AtInside(out, at, p, 0, t + [0]);
    TextInPlace(out, at, t);
    forall k | at + |t| <= k < at + n
      ensures out[k] == 0
    {
      assert out[at..at + n][k - at] == p[k - at];
    }
  }

  // ----- The definition record

  /** The definition record that stands in `src` at `at`. */
  ghost predicate RecordSays(src: ByteString, at: nat, little: bool, def: FileDef) {
    && at + 160 <= |src|
    && IsTextOf(def.objectName, src[at..at + 64])
    && IsTextOf(def.tableName, src[at + 64..at + 104])
    && IsTextOf(def.description, src[at + 104..at + 136])
    && def.objectSize == Value(src[at + 156..at + 160], little)
  }

  lemma DecodedSays(src: ByteString, at: nat, little: bool)
    requires at + 160 <= |src|
    ensures RecordSays(src, at, little, DecodeDef(src[at..at + 160], little))
  {
    hide ArrayText, Value, IsTextOf;
    var s := src[at..at + 160];
    ArrayTextIs(s[..64]);
    ArrayTextIs(s[64..104]);
    ArrayTextIs(s[104..136]);
    SliceOfSlice(src, at, 160, 0, 64);
    SliceOfSlice(src, at, 160, 64, 104);
    SliceOfSlice(src, at, 160, 104, 136);
    SliceOfSlice(src, at, 160, 156, 160);
  }

  lemma SliceOfSlice(s: ByteString, at: nat, n: nat, i: nat, j: nat)
    requires at + n <= |s| && i <= j <= n
    ensures s[at..at + n][i..j] == s[at + i..at + j]
  {
    var t, u := s[at..at + n][i..j], s[at + i..at + j];
    forall k | 0 <= k < |t|
      ensures t[k] == u[k]
    {
      assert t[k] == s[at..at + n][i + k] == s[at + (i + k)];
      assert u[k] == s[(at + i) + k];
    }
  }

  /** Symbol `d` is the definition's, of a record's size or none, and `def` is the
      record at the offset sought for it. */
  ghost predicate DefinedBy(src: ByteString, obj: Object, def: FileDef, d: nat, at: nat) {
    && d < |obj.symbols| && d == DefIndex(NamesOf(obj.symbols), |obj.symbols|)
    && (obj.symbols[d].entry.size == 0 || obj.symbols[d].entry.size == 160)
    && DataOffset(obj, obj.symbols[d].entry) == Some(at)
    && RecordSays(src, at, obj.image.little, def)
  }

  /** Every definition the converter goes by is such a record. */
  lemma DefinitionIsRecord(src: ByteString, obj: Object, def: FileDef)
    requires DefOf(src, obj) == Some(def)
    ensures exists d: nat, at: nat :: DefinedBy(src, obj, def, d, at)
  {
    hide DataOffset, DecodeDef, RecordSays, DefIndex;
    var d: nat := DefIndex(NamesOf(obj.symbols), |obj.symbols|);
    var at := DataOffset(obj, obj.symbols[d].entry).value;
    DecodedSays(src, at, obj.image.little);
    assert DefinedBy(src, obj, def, d, at);
  }

  // ----- The two headers

  /** What the headers of a table file say. */
  ghost predicate HeadersSay(out: ByteString, o: Options, description: ByteString, tableName: ByteString) {
    && |out| >= 116
    && Value(out[0..4], false) == 0x63464531
    && Value(out[4..8], false) == 8
    && Value(out[8..12], false) == 64
    && Value(out[12..16], false) == (if o.spacecraftId.Some? then o.spacecraftId.value else 0)
    && Value(out[16..20], false) == (if o.processorId.Some? then o.processorId.value else 0)
    && Value(out[20..24], false) == (if o.applicationId.Some? then o.applicationId.value else 0)
    && Value(out[24..28], false) == (if o.timeTag then o.sourceTime % 0x1_0000_0000 else 0)
    && Value(out[28..32], false) == 0
    && HoldsText(out, 32, 32, if o.description.Some? then o.description.value else description)
    && Value(out[64..68], false) == 0
    && Value(out[68..72], false) == 0
    && Value(out[72..76], false) == |out| - 116
    && HoldsText(out, 76, 40, if o.tableName.Some? then o.tableName.value else tableName)
  }

  lemma WordReads(out: ByteString, at: nat, v: nat)
    requires At(out, at, Big32(v)) && v < TWO_32
    ensures Value(out[at..at + 4], false) == v
  {
    hide Value, Encode, Pow256;
    Pow256Values();
    ValueOfEncode(v, 4, false);
  }

  // Eight words and a text.
  lemma FirstHeader(a: ByteString, b: ByteString, c: ByteString, d: ByteString, e: ByteString, f: ByteString,
                    g: ByteString, h: ByteString, t: ByteString)
    requires |a| == |b| == |c| == |d| == |e| == |f| == |g| == |h| == 4 && |t| == 32
    ensures var s := a + b + c + d + e + f + g + h + t;
      && At(s, 0, a) && At(s, 4, b) && At(s, 8, c) && At(s, 12, d) && At(s, 16, e) && At(s, 20, f)
      && At(s, 24, g) && At(s, 28, h) && At(s, 32, t)
  {}

  // Three words and a text.
  lemma SecondHeader(a: ByteString, b: ByteString, c: ByteString, t: ByteString)
    requires |a| == |b| == |c| == 4 && |t| == 40
    ensures var s := a + b + c + t; At(s, 0, a) && At(s, 4, b) && At(s, 8, c) && At(s, 12, t)
  {}

  lemma BothHeaders(f: ByteString, t: ByteString, data: ByteString)
    ensures At(f + t + data, 0, f) && At(f + t + data, |f|, t)
  {}

  lemma FileHeaderSays(out: ByteString, o: Options, description: ByteString)
    requires ValidOptions(o) && IsText(description, 32) && At(out, 0, FileHeader(o, description))
    ensures |out| >= 64
    ensures Value(out[0..4], false) == 0x63464531 && Value(out[4..8], false) == 8 && Value(out[8..12], false) == 64
    ensures Value(out[12..16], false) == if o.spacecraftId.Some? then o.spacecraftId.value else 0
    ensures Value(out[16..20], false) == if o.processorId.Some? then o.processorId.value else 0
    ensures Value(out[20..24], false) == if o.applicationId.Some? then o.applicationId.value else 0
    ensures Value(out[24..28], false) == if o.timeTag then o.sourceTime % 0x1_0000_0000 else 0
    ensures Value(out[28..32], false) == 0 && HoldsText(out, 32, 32, description)
  {
    hide Big32, Padded, At, Value, HoldsText;
    var spacecraft, processor, application := OrElse(o.spacecraftId, 0), OrElse(o.processorId, 0), OrElse(o.applicationId, 0);
    var time := if o.timeTag then o.sourceTime % TWO_32 else 0;
    FirstHeader(Big32(CONTENT_TYPE), Big32(SUBTYPE_TABLE), Big32(FILE_HEADER_SIZE), Big32(spacecraft),
                Big32(processor), Big32(application), Big32(time), Big32(0), Padded(description, 32));
    var h := FileHeader(o, description);
    Words(out, 0, h, 0, CONTENT_TYPE);
    Words(out, 0, h, 4, SUBTYPE_TABLE);
    Words(out, 0, h, 8, FILE_HEADER_SIZE);
    Words(out, 0, h, 12, spacecraft);
    Words(out, 0, h, 16, processor);
    Words(out, 0, h, 20, application);
    Words(out, 0, h, 24, time);
    Words(out, 0, h, 28, 0);
    AtInside(out, 0, h, 32, Padded(description, 32));
    PaddedHolds(out, 32, 32, description);
  }

  lemma Words(out: ByteString, base: nat, h: ByteString, at: nat, v: nat)
    requires At(out, base, h) && At(h, at, Big32(v)) && v < TWO_32
    ensures base + at + 4 <= |out| && Value(out[base + at..base + at + 4], false) == v
  {
    AtInside(out, base, h, at, Big32(v));
    WordReads(out, base + at, v);
  }

  lemma TableHeaderSays(out: ByteString, n: nat, name: ByteString)
    requires n < TWO_32 && IsText(name, 40) && At(out, 64, TableHeader(n, name))
    ensures |out| >= 116 && Value(out[64..68], false) == 0 && Value(out[68..72], false) == 0
    ensures Value(out[72..76], false) == n && HoldsText(out, 76, 40, name)
  {
    hide Big32, Padded, At, Value, HoldsText;
    SecondHeader(Big32(0), Big32(0), Big32(n), Padded(name, 40));
    var h := TableHeader(n, name);
    Words(out, 64, h, 0, 0);
    Words(out, 64, h, 4, 0);
    Words(out, 64, h, 8, n);
    AtInside(out, 64, h, 12, Padded(name, 40));
    PaddedHolds(out, 76, 40, name);
  }

  lemma TableFileSays(o: Options, def: FileDef, data: ByteString)
    requires ValidOptions(o) && IsText(def.tableName, 40) && IsText(def.description, 32) && |data| < TWO_32
    ensures HeadersSay(TableFile(o, def, data), o, def.description, def.tableName)
  {
    hide FileHeader, TableHeader, Value, HoldsText, At;
    var f := FileHeader(o, OrElse(o.description, def.description));
    var t := TableHeader(|data|, OrElse(o.tableName, def.tableName));
    var out := TableFile(o, def, data);
    BothHeaders(f, t, data);
    ShortText(o.tableName);
    FileHeaderSays(out, o, OrElse(o.description, def.description));
    TableHeaderSays(out, |data|, OrElse(o.tableName, def.tableName));
  }

  // The overriding table name's array is two bytes shorter than the header's.
  lemma ShortText(t: Option<ByteString>)
    requires t.Some? ==> IsText(t.value, 38)
    ensures t.Some? ==> IsText(t.value, 40)
  {}

  /** Every converted file's headers, word by word and text by text; where no text
      overrides, it is the definition record's. */
  lemma ConvertedSays(o: Options, src: ByteString)
    requires InDomain(src) && ValidOptions(o) && Converted(o, src).Some?
    ensures ReadObject(src).Some? && DefOf(src, ReadObject(src).value).Some?
    ensures var def := DefOf(src, ReadObject(src).value).value;
      HeadersSay(Converted(o, src).value, o, def.description, def.tableName)
  {
    hide ReadObject, DefOf, TableFile, SelectionInDomain, InDomain, ObjectIndex, HeadersSay;
    var obj := ReadObject(src).value;
    var def := DefOf(src, obj).value;
    DomainOfObject(src, obj);
    DomainOfUse(src, obj, def);
    DefinitionTexts(src, obj, def);
    TableFileSays(o, def, UserData(src, obj, def).value);
  }

  lemma DefinitionTexts(src: ByteString, obj: Object, def: FileDef)
    requires DefOf(src, obj) == Some(def)
    ensures IsText(def.tableName, 40) && IsText(def.description, 32)
  {
    hide DataOffset;
  }
}
