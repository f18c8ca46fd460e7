/**
 * The CSV dump of a data block: a header record followed by one record per
 * byte offset, each rendering the decoded row of that offset, with an absent
 * integer or float written as an empty field.
 */
module CsvExport {
  import opened BlockDecoder

  /** One CSV field as the writer receives it. */
  datatype Field = Text(s: string) | Int(n: int) | Bool(b: bool) | Float(bits: uint32)

  type Record = seq<Field>

  const Header: Record := [Text("Byte Offset"), Text("Raw Byte"), Text("As Bool"), Text("As Int"), Text("As Float")]

  /** What the logger writes where a value is absent. */
  const Empty: Field := Text("")

  /** The record for a decoded row; one field per header column. */
  function Render(r: Row): (rec: Record)
    ensures |rec| == |Header|
    ensures rec[0] == Int(r.offset) && rec[1] == Int(r.raw as int) && rec[2] == Bool(r.asBool)
    ensures rec[3] == Empty <==> r.asInt.None?
    ensures rec[4] == Empty <==> r.asFloat.None?
    ensures r.asInt.Some? ==> rec[3] == Int(r.asInt.value)
    ensures r.asFloat.Some? ==> rec[4] == Float(r.asFloat.value)
  {
    [Int(r.offset), Int(r.raw as int), Bool(r.asBool),
     match r.asInt case Some(v) => Int(v) case None => Empty,
     match r.asFloat case Some(bits) => Float(bits) case None => Empty]
  }

  /** The records of the file written for block `data`: the header, then the
      record of the row for each offset in turn. */
  function Csv(data: seq<byte>): (t: seq<Record>)
    ensures |t| == |data| + 1 && t[0] == Header
    ensures forall i :: 0 <= i < |data| ==> t[i + 1] == Render(RowAt(data, i))
  {
    var rows := Decode(data);
    [Header] + seq(|rows|, k requires 0 <= k < |rows| => Render(rows[k]))
  }

  /** The file holds the header and then one record per byte, in offset order;
      an empty block gives the header alone. */
  lemma CsvShape(data: seq<byte>)
    ensures |Csv(data)| == |data| + 1
    ensures Csv(data)[0] == Header
    ensures forall i :: 0 <= i < |data| ==> |Csv(data)[i + 1]| == |Header| && Csv(data)[i + 1][0] == Int(i)
    ensures data == [] ==> Csv(data) == [Header]
  {
    DecodeOffsets(data);
  }

  /** Record `i + 1` shows byte `i`, its truthiness, the '>h' integer of bytes `i`,
      `i + 1` or an empty field in the last record, and the '>f' pattern of bytes
      `i` to `i + 3` or an empty field in the last three records. */
  lemma CsvRecord(data: seq<byte>, i: nat)
    requires i < |data|
    ensures |Csv(data)| == |data| + 1 && |Csv(data)[i + 1]| == |Header|
    ensures Csv(data)[i + 1][1] == Int(data[i] as int)
    ensures Csv(data)[i + 1][2] == Bool(data[i] != 0)
    ensures i + 1 < |data| ==> Csv(data)[i + 1][3] == Int(Int16Be(data[i], data[i + 1]))
    ensures i + 1 >= |data| ==> Csv(data)[i + 1][3] == Empty
    ensures i + 3 < |data| ==> Csv(data)[i + 1][4] == Float(Float32BitsBe(data[i..i + 4]))
    ensures i + 3 >= |data| ==> Csv(data)[i + 1][4] == Empty
  {
  }

  /** Writes the header, then one record per offset of the block, as the logger's
      export loop does. */
  method WriteBlockCsv(data: seq<byte>) returns (written: seq<Record>)
    ensures written == Csv(data)
  {
    written := [Header];
    var dbSize := |data|;
    var i := 0;
    while i < dbSize
      invariant 0 <= i <= dbSize
      invariant |written| == i + 1 && written[0] == Header
      invariant forall k :: 0 <= k < i ==> written[k + 1] == Render(RowAt(data, k))
    {
      var b := data[i];
      var boolVal := b != 0;
      var intVal := Empty;
      if i + 1 < dbSize {
        intVal := Int(Int16Be(data[i], data[i + 1]));
      }
      var floatVal := Empty;
      if i + 3 < dbSize {
        floatVal := Float(Float32BitsBe(data[i..i + 4]));
      }
      written := written + [[Int(i), Int(b as int), Bool(boolVal), intVal, floatVal]];
      i := i + 1;
    }
  }
}
