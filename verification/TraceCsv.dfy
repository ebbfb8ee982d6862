/** The instruction trace file that the log converters write and the comparator reads
    (cva6/verif/sim/dv/scripts/riscv_trace_csv.py). */
module TraceCsv {
  import opened PyText

  datatype Entry = Entry(pc: string, instrStr: string, binary: string, mode: string, gpr: seq<string>)

  /** One row of the file: the register updates are one cell. */
  datatype Row = Row(pc: string, instrStr: string, binary: string, mode: string, gpr: string)

  function Encode(e: Entry): Row {
    Row(e.pc, e.instrStr, e.binary, e.mode, Join(';', e.gpr))
  }

  function Decode(r: Row): Entry {
    Entry(r.pc, r.instrStr, r.binary, r.mode, Split(';', r.gpr))
  }

  function EncodeAll(t: seq<Entry>): (rows: seq<Row>) {
    seq(|t|, i requires 0 <= i < |t| => Encode(t[i]))
  }

  function DecodeAll(rows: seq<Row>): (t: seq<Entry>) {
    seq(|rows|, i requires 0 <= i < |rows| => Decode(rows[i]))
  }

  /** What one trip through the file makes of an entry. */
  function AfterCsv(e: Entry): Entry {
    if e.gpr == [] then e.(gpr := [""]) else e
  }

  function AfterCsvAll(t: seq<Entry>): (r: seq<Entry>) {
    seq(|t|, i requires 0 <= i < |t| => AfterCsv(t[i]))
  }

  /** No update contains the separator of the cell. */
  ghost predicate Writable(t: seq<Entry>) {
    forall i, u | 0 <= i < |t| && u in t[i].gpr :: ';' !in u
  }

  /** The file preserves every trace, except that "no update" comes back as one empty update. */
  lemma {:induction false} RoundTrip(t: seq<Entry>)
    requires Writable(t)
    ensures DecodeAll(EncodeAll(t)) == AfterCsvAll(t) && |AfterCsvAll(t)| == |t|
    ensures forall i :: 0 <= i < |t| ==> AfterCsvAll(t)[i] == if t[i].gpr == [] then t[i].(gpr := [""]) else t[i]
  {
    forall i | 0 <= i < |t|
      ensures Decode(Encode(t[i])) == AfterCsv(t[i])
    {
      SplitJoin(';', t[i].gpr);
    }
  }

  /** Each column of a row holds what it is named for, and the update cell splits into the updates. */
  lemma {:induction false} RowOf(e: Entry)
    requires forall u :: u in e.gpr ==> ';' !in u
    ensures var r := Encode(e);
            && (r.pc, r.instrStr, r.binary, r.mode) == (e.pc, e.instrStr, e.binary, e.mode)
            && Split(';', r.gpr) == if e.gpr == [] then [""] else e.gpr
  {
    SplitJoin(';', e.gpr);
  }

  class RiscvInstructionTraceCsv {
    var rows: seq<Row>

    constructor StartNewTrace()
      ensures rows == []
    {
      rows := [];
    }

    method WriteTraceEntry(entry: Entry)
      modifies this
      ensures rows == old(rows) + [Encode(entry)]
    {
      rows := rows + [Encode(entry)];
    }

    method ReadTrace() returns (trace: seq<Entry>)
      ensures trace == DecodeAll(rows)
    {
      trace := [];
      for i := 0 to |rows|
        invariant trace == DecodeAll(rows)[..i]
      {
        trace := trace + [Decode(rows[i])];
      }
    }
  }
}
