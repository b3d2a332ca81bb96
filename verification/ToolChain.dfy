/**
  The two tools one after the other: the CRC tool, run on the file the converter
  wrote, reports the CRC of the object's bytes alone.
 */
module ToolChain {
  import opened Bytes
  import opened Endian
  import opened Elf
  import opened Table
  import opened TableLaws
  import opened Converter
  import opened Crc
  import CrcTool

  /** The CRC tool skips exactly what the converter puts in front of the data. */
  lemma SkipIsHeader(o: Options, def: FileDef, data: ByteString)
    requires ValidOptions(o) && |def.tableName| < 40 && |def.description| < 32
    ensures CrcTool.SKIP_SIZE == HEADER_SIZE
    ensures CrcTool.From(TableFile(o, def, data), CrcTool.SKIP_SIZE) == data
  {
    TableFileParts(o, def, data);
  }

  /** Convert, then check.  If both tools succeed, the size reported is the header's
      byte count, and the CRC that of the data bytes, which are the plan's. */
  method ConvertAndCheck(
      src: ByteString, hostIsLittle: bool, o: Options, verbose: bool, seekOk: bool, readMayFail: bool)
    returns (status: int, output: ByteString, report: CrcTool.Report)
    requires InDomain(src) && ValidOptions(o)
    ensures status == SUCCESS <==> PlanOf(src).Some?
    ensures status == SUCCESS && seekOk && !readMayFail ==> report.Report?
    ensures status == SUCCESS && report.Report? ==>
      var data := PlanOf(src).value.data;
      && |output| == HEADER_SIZE + |data|
      && report.size == |data| == Value(output[72..76], false)
      && CrcTool.Holds(report.crc, CrcOf(Zeros(16), CrcTool.Raw(data)))
  {
    hide PlanOf, InDomain, TableFile, CrcOf, CrcTool.Holds, CrcTool.From;
    status, output := ConvertFile(src, hostIsLittle, o, verbose);
    report := CrcTool.Failure;
    if status == SUCCESS {
      ghost var plan := PlanOf(src).value;
      PlanBounds(src);
      SkipIsHeader(o, plan.def, plan.data);
      NumBytesIsDataLength(o, plan.def, plan.data);
      report := CrcTool.Program(output, seekOk, readMayFail);
    }
  }

  lemma PlanBounds(src: ByteString)
    requires InDomain(src) && PlanOf(src).Some?
    ensures var plan := PlanOf(src).value;
      |plan.def.tableName| < 40 && |plan.def.description| < 32 && |plan.data| < TWO_32
  {
    hide ReadObject, DefOf, SelectionInDomain, InDomain, ObjectIndex;
    var obj := ReadObject(src).value;
    var def := DefOf(src, obj).value;
    DomainOfObject(src, obj);
    DomainOfUse(src, obj, def);
  }
}
