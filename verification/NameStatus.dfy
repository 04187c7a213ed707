/** The NUL-delimited name-status records of git diff: parser and printer are inverse. */
module NameStatus {
  import opened Split
  import opened Wrappers

  newtype byte = x: int | 0 <= x < 256

  type Field = seq<byte>

  const NUL: byte := 0

  /** A record as git prints it; a rename or copy carries the old path as well. */
  datatype ChangedFile = ChangedFile(status: Field, path: Field, oldPath: Option<Field>)

  /** A record as the parser returns it, its paths decoded to text. */
  datatype Change = Change(status: Field, path: string, oldPath: Option<string>)

  /** Decoding never fails: bytes that are no text are replaced. */
  type Decoder = Field -> string

  function Decoded(decode: Decoder, r: ChangedFile): Change {
    Change(r.status, decode(r.path), match r.oldPath case None => None case Some(p) => Some(decode(p)))
  }

  function AllDecoded(decode: Decoder, rs: seq<ChangedFile>): (cs: seq<Change>)
    ensures |cs| == |rs| && forall i :: 0 <= i < |cs| ==> cs[i] == Decoded(decode, rs[i])
  {
    seq(|rs|, i requires 0 <= i < |rs| => Decoded(decode, rs[i]))
  }

  /** R or C, the two statuses with two paths. */
  predicate Paired(status: Field) { status != [] && (status[0] == 82 || status[0] == 67) }

  predicate Ascii(status: Field) { forall i :: 0 <= i < |status| ==> status[i] < 128 }

  // ---- Printer -----------------------------------------------------------------------------------

  function FieldsOf(r: ChangedFile): seq<Field> {
    match r.oldPath
    case None => [r.status, r.path]
    case Some(before) => [r.status, before, r.path]
  }

  function EmitFields(rs: seq<ChangedFile>): seq<Field> {
    if rs == [] then [] else FieldsOf(rs[0]) + EmitFields(rs[1..])
  }

  /** Every field followed by a NUL. */
  function Terminated(fields: seq<Field>): Field {
    if fields == [] then [] else fields[0] + [NUL] + Terminated(fields[1..])
  }

  function Emit(rs: seq<ChangedFile>): Field { Terminated(EmitFields(rs)) }

  ghost predicate IsAscii(status: Field) { forall b :: b in status ==> b as int <= 127 }

  ghost predicate RenamedOrCopied(status: Field) { status != [] && status[0] as int in {'R' as int, 'C' as int} }

  lemma StatusMeans(status: Field)
    ensures (Ascii(status) <==> IsAscii(status)) && (Paired(status) <==> RenamedOrCopied(status))
  {
    forall i | 0 <= i < |status| ensures status[i] in status {}
  }

  /** A record git can print: an ASCII status, an old path exactly when renamed or copied, no NUL in any field. */
  ghost predicate Printable(r: ChangedFile) {
    && IsAscii(r.status) && (r.oldPath.Some? <==> RenamedOrCopied(r.status))
    && Free(r.status, NUL) && Free(r.path, NUL) && (r.oldPath.Some? ==> Free(r.oldPath.value, NUL))
  }

  ghost predicate AllPrintable(rs: seq<ChangedFile>) {
    forall i :: 0 <= i < |rs| ==> Printable(rs[i])
  }

  // ---- Parser ------------------------------------------------------------------------------------

  function ParseFields(fields: seq<Field>): Result<seq<ChangedFile>>
    decreases |fields|
  {
    if fields == [] then Ok([])
    else if !Ascii(fields[0]) then Err
    else
      var width := if Paired(fields[0]) then 3 else 2;
      if |fields| < width then Err
      else
        var r := if width == 3 then ChangedFile(fields[0], fields[2], Some(fields[1]))
          else ChangedFile(fields[0], fields[1], None);
        match ParseFields(fields[width..])
        case Err => Err
        case Ok(rest) => Ok([r] + rest)
  }

  function Parsed(raw: Field): Result<seq<ChangedFile>> {
    var parts := SplitOn(raw, NUL);
    if parts[|parts| - 1] != [] then Err else ParseFields(parts[..|parts| - 1])
  }

  /** What the parser returns for a decoder. */
  function Read(decode: Decoder, raw: Field): Result<seq<Change>> {
    match Parsed(raw) case Err => Err case Ok(rs) => Ok(AllDecoded(decode, rs))
  }

  /** Records already read, followed by what the remaining fields give. */
  function After(done: seq<ChangedFile>, r: Result<seq<ChangedFile>>): Result<seq<ChangedFile>> {
    match r case Err => Err case Ok(rest) => Ok(done + rest)
  }

  lemma ParseStep(fields: seq<Field>, k: nat, width: nat, done: seq<ChangedFile>, r: ChangedFile)
    requires k < |fields| && Ascii(fields[k]) && width == (if Paired(fields[k]) then 3 else 2) && k + width <= |fields|
    requires r == if width == 3 then ChangedFile(fields[k], fields[k + 2], Some(fields[k + 1]))
      else ChangedFile(fields[k], fields[k + 1], None)
    ensures After(done, ParseFields(fields[k..])) == After(done + [r], ParseFields(fields[k + width..]))
  {
    assert fields[k..][width..] == fields[k + width..];
    var next := ParseFields(fields[k + width..]);
    if next.Ok? { assert (done + [r]) + next.value == done + ([r] + next.value); }
  }

  lemma ParseStops(fields: seq<Field>, k: nat)
    requires k < |fields| && (!Ascii(fields[k]) || |fields| < k + if Paired(fields[k]) then 3 else 2)
    ensures ParseFields(fields[k..]).Err?
  {
  }

  lemma ParseStarts(fields: seq<Field>)
    ensures After([], ParseFields(fields[0..])) == ParseFields(fields)
  {
    assert fields[0..] == fields;
    if ParseFields(fields).Ok? { assert [] + ParseFields(fields).value == ParseFields(fields).value; }
  }

  /** _parse_name_status_z. */
  method Parse(raw: Field, decode: Decoder) returns (r: Result<seq<Change>>)
    ensures r == Read(decode, raw)
  {
    var parts := SplitOn(raw, NUL);
    if parts[|parts| - 1] != [] { return Err; }
    var fields := parts[..|parts| - 1];
    hide ParseFields, Ascii;
    var changed: seq<Change> := [];
    ghost var records: seq<ChangedFile> := [];
    var index := 0;
    ParseStarts(fields);
    while index < |fields|
      invariant index <= |fields| && changed == AllDecoded(decode, records)
      invariant ParseFields(fields) == After(records, ParseFields(fields[index..]))
    {
      ghost var start := index;
      var status := fields[index];
      if !Ascii(status) {
        ParseStops(fields, start);
        return Err;
      }
      index := index + 1;
      if Paired(status) {
        if index + 1 >= |fields| {
          ParseStops(fields, start);
          return Err;
        }
        ghost var record := ChangedFile(status, fields[index + 1], Some(fields[index]));
        ParseStep(fields, start, 3, records, record);
        changed := changed + [Change(status, decode(fields[index + 1]), Some(decode(fields[index])))];
        records := records + [record];
        index := index + 2;
      } else {
        if index >= |fields| {
          ParseStops(fields, start);
          return Err;
        }
        ghost var record := ChangedFile(status, fields[index], None);
        ParseStep(fields, start, 2, records, record);
        changed := changed + [Change(status, decode(fields[index]), None)];
        records := records + [record];
        index := index + 1;
      }
    }
    ParseEnds(fields, records);
    r := Ok(changed);
  }

  lemma ParseEnds(fields: seq<Field>, done: seq<ChangedFile>)
    ensures After(done, ParseFields(fields[|fields|..])) == Ok(done)
  {
    assert done + [] == done;
  }

  // ---- Round trips -------------------------------------------------------------------------------

  lemma {:induction false} SplitTerminated(fields: seq<Field>)
    requires AllFree(fields, NUL)
    ensures SplitOn(Terminated(fields), NUL) == fields + [[]]
  {
    if fields != [] {
      assert Free(fields[0], NUL);
      forall i | 0 <= i < |fields[1..]| ensures Free(fields[1..][i], NUL) { assert Free(fields[i + 1], NUL); }
      SplitTerminated(fields[1..]);
      SplitAtFirst(fields[0], NUL, Terminated(fields[1..]));
    }
  }

  lemma {:induction false} JoinTerminates(fields: seq<Field>)
    ensures Join(fields + [[]], NUL) == Terminated(fields)
  {
    if fields != [] {
      assert (fields + [[]])[1..] == fields[1..] + [[]];
      JoinTerminates(fields[1..]);
    }
  }

  lemma {:induction false} EmittedFields(rs: seq<ChangedFile>)
    requires AllPrintable(rs)
    ensures AllFree(EmitFields(rs), NUL) && ParseFields(EmitFields(rs)) == Ok(rs)
  {
    if rs != [] {
      var fs, rest := FieldsOf(rs[0]), EmitFields(rs[1..]);
      EmittedFields(rs[1..]);
      assert Printable(rs[0]);
      StatusMeans(rs[0].status);
      hide IsAscii, RenamedOrCopied, Ascii, Paired;
      var all := fs + rest;
      FreeTogether(fs, rest);
      assert all[|fs|..] == rest && rs == [rs[0]] + rs[1..];
      hide AllFree;
      ParseStarts(all);
      ParseStep(all, 0, |fs|, [], rs[0]);
      hide ParseFields;
      assert [] + [rs[0]] == [rs[0]];
    }
  }

  lemma FreeTogether(fs: seq<Field>, rest: seq<Field>)
    requires AllFree(fs, NUL) && AllFree(rest, NUL)
    ensures AllFree(fs + rest, NUL)
  {
    var all := fs + rest;
    forall i | 0 <= i < |all| ensures Free(all[i], NUL) {
      if i >= |fs| { assert all[i] == rest[i - |fs|]; }
    }
  }

  lemma {:induction false} ParsedFields(fields: seq<Field>)
    requires AllFree(fields, NUL) && ParseFields(fields).Ok?
    ensures AllPrintable(ParseFields(fields).value) && EmitFields(ParseFields(fields).value) == fields
    decreases |fields|
  {
    if fields != [] {
      var width := if Paired(fields[0]) then 3 else 2;
      var tail := fields[width..];
      forall i | 0 <= i < |tail| ensures Free(tail[i], NUL) { assert Free(fields[i + width], NUL); }
      assert Free(fields[0], NUL) && Free(fields[1], NUL) && Free(fields[width - 1], NUL);
      ParsedFields(tail);
      var rs, rest := ParseFields(fields).value, ParseFields(tail).value;
      assert rs[1..] == rest;
      StatusMeans(fields[0]);
      hide IsAscii, RenamedOrCopied, Ascii, Paired;
      assert Printable(rs[0]);
      forall i | 0 <= i < |rs| ensures Printable(rs[i]) { if i > 0 { assert rs[i] == rest[i - 1]; } }
      assert fields == fields[..width] + tail;
      assert FieldsOf(rs[0]) == fields[..width];
    }
  }

  /** Parsing what the printer emits gives the records back, their paths decoded. */
  lemma ParseInvertsEmit(decode: Decoder, rs: seq<ChangedFile>)
    requires AllPrintable(rs)
    ensures Parsed(Emit(rs)) == Ok(rs) && Read(decode, Emit(rs)) == Ok(AllDecoded(decode, rs))
  {
    var fields := EmitFields(rs);
    EmittedFields(rs);
    SplitTerminated(fields);
    assert (fields + [[]])[..|fields|] == fields;
  }

  /** And whatever the parser accepts is exactly what the printer emits for the records it read. */
  lemma EmitInvertsParse(raw: Field)
    requires Parsed(raw).Ok?
    ensures AllPrintable(Parsed(raw).value) && Emit(Parsed(raw).value) == raw
  {
    hide ParseFields, Free, SplitOn, Join, EmitFields, Terminated;
    var parts := SplitOn(raw, NUL);
    var fields := parts[..|parts| - 1];
    SplitJoins(raw, NUL);
    assert parts == fields + [[]];
    forall i | 0 <= i < |fields| ensures Free(fields[i], NUL) { assert Free(parts[i], NUL); }
    JoinTerminates(fields);
    ParsedFields(fields);
  }

  // ---- Back from the decoded result ------------------------------------------------------------------

  function Encoded(encode: string -> Field, c: Change): ChangedFile {
    ChangedFile(c.status, encode(c.path), match c.oldPath case None => None case Some(p) => Some(encode(p)))
  }

  function AllEncoded(encode: string -> Field, cs: seq<Change>): (rs: seq<ChangedFile>)
    ensures |rs| == |cs| && forall i :: 0 <= i < |rs| ==> rs[i] == Encoded(encode, cs[i])
  {
    seq(|cs|, i requires 0 <= i < |cs| => Encoded(encode, cs[i]))
  }

  /** A path survives decoding and encoding. */
  predicate Survives(encode: string -> Field, decode: Decoder, p: Field) { encode(decode(p)) == p }

  predicate RecordSurvives(encode: string -> Field, decode: Decoder, r: ChangedFile) {
    Survives(encode, decode, r.path) && (r.oldPath.Some? ==> Survives(encode, decode, r.oldPath.value))
  }

  /** The decoded result re-emits to the input exactly when every path in it survives decoding. */
  lemma ReemitsExactly(encode: string -> Field, decode: Decoder, raw: Field)
    requires Parsed(raw).Ok? && forall p :: Free(p, NUL) ==> Free(encode(decode(p)), NUL)
    ensures Emit(AllEncoded(encode, Read(decode, raw).value)) == raw
      <==> forall i :: 0 <= i < |Parsed(raw).value| ==> RecordSurvives(encode, decode, Parsed(raw).value[i])
  {
    hide Parsed, Emit, Free;
    var rs, back := Parsed(raw).value, AllEncoded(encode, Read(decode, raw).value);
    EmitInvertsParse(raw);
    forall i | 0 <= i < |rs|
      ensures Printable(back[i]) && (back[i] == rs[i] <==> RecordSurvives(encode, decode, rs[i]))
    {
      assert Printable(rs[i]) && back[i] == Encoded(encode, Decoded(decode, rs[i]));
    }
    ParseInvertsEmit(decode, back);
    ParseInvertsEmit(decode, rs);
    if Emit(back) == raw { assert back == rs; }
    if forall i :: 0 <= i < |rs| ==> RecordSurvives(encode, decode, rs[i]) { assert back == rs; }
  }

  // ---- One record, byte by byte ------------------------------------------------------------------------

  /** A rename or copy reads as status, old path and new path, anything else as status and path; what follows is read
      on its own. */
  lemma OneRecord(status: Field, a: Field, b: Field, rest: Field)
    requires IsAscii(status) && 0 !in status && 0 !in a && 0 !in b
    ensures RenamedOrCopied(status) ==>
      Parsed(status + [0] + a + [0] + b + [0] + rest) == After([ChangedFile(status, b, Some(a))], Parsed(rest))
    ensures !RenamedOrCopied(status) ==>
      Parsed(status + [0] + a + [0] + rest) == After([ChangedFile(status, a, None)], Parsed(rest))
  {
    StatusMeans(status);
    if RenamedOrCopied(status) {
      ThreeFields(status, a, b, rest);
      HeadRecord([status, a, b], SplitOn(rest, NUL));
    } else {
      TwoFields(status, a, rest);
      HeadRecord([status, a], SplitOn(rest, NUL));
    }
  }

  lemma HeadRecord(head: seq<Field>, more: seq<Field>)
    requires head != [] && Ascii(head[0]) && |head| == (if Paired(head[0]) then 3 else 2) && more != []
    ensures var all, r := head + more,
        if |head| == 3 then ChangedFile(head[0], head[2], Some(head[1])) else ChangedFile(head[0], head[1], None);
      ParseFields(all[..|all| - 1]) == After([r], ParseFields(more[..|more| - 1]))
  {
    hide Ascii, Paired, ParseFields;
    var fields := (head + more)[..|head + more| - 1];
    assert fields == head + more[..|more| - 1] && fields[|head|..] == more[..|more| - 1];
    var r := if |head| == 3 then ChangedFile(head[0], head[2], Some(head[1])) else ChangedFile(head[0], head[1], None);
    ParseStarts(fields);
    ParseStep(fields, 0, |head|, [], r);
    assert [] + [r] == [r];
  }

  lemma TwoFields(x: Field, y: Field, rest: Field)
    requires 0 !in x && 0 !in y
    ensures SplitOn(x + [0] + y + [0] + rest, NUL) == [x, y] + SplitOn(rest, NUL)
  {
    SplitAtFirst(y, NUL, rest);
    SplitAtFirst(x, NUL, y + [0] + rest);
    assert x + [0] + y + [0] + rest == x + [0] + (y + [0] + rest);
  }

  lemma ThreeFields(x: Field, y: Field, z: Field, rest: Field)
    requires 0 !in x && 0 !in y && 0 !in z
    ensures SplitOn(x + [0] + y + [0] + z + [0] + rest, NUL) == [x, y, z] + SplitOn(rest, NUL)
  {
    assert x + [0] + y + [0] + z + [0] + rest == (x + [0]) + (y + [0]) + (z + [0]) + rest;
    var tail := (y + [0]) + (z + [0]) + rest;
    assert tail == y + [0] + z + [0] + rest;
    TwoFields(y, z, rest);
    SplitAtFirst(x, NUL, tail);
    Regrouped(x + [0], y + [0], z + [0], rest);
    hide SplitOn;
    assert [x] + ([y, z] + SplitOn(rest, NUL)) == [x, y, z] + SplitOn(rest, NUL);
  }

  lemma Regrouped(x: Field, y: Field, z: Field, rest: Field)
    ensures x + y + z + rest == x + (y + z + rest)
  {
  }

  /** Nothing is no record; an end without a NUL, a status that is not ASCII and a record cut short are errors. */
  lemma NoRecord(status: Field, a: Field)
    requires 0 !in status && 0 !in a
    ensures Parsed([]) == Ok([]) && (status != [] ==> Parsed(status) == Err)
    ensures Parsed(status + [0]) == Err
    ensures !IsAscii(status) || RenamedOrCopied(status) ==> Parsed(status + [0] + a + [0]) == Err
  {
    StatusMeans(status);
    SplitFree(status, NUL);
    SplitAtFirst(status, NUL, []);
    assert status + [0] + [] == status + [0];
    TwoFields(status, a, []);
    assert status + [0] + a + [0] + [] == status + [0] + a + [0];
    assert ([status] + [[]])[..1] == [status] && ([status, a] + [[]])[..2] == [status, a];
  }
}
