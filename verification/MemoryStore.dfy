/** The in-memory records of the memory controller and the JSONL file that mirrors them
    (memory_service/controller.py, local backend). */
module MemoryStore {
  import opened Basics
  import opened Sorting

  const NEWLINE: byte := 10

  /** The fields of a stored record that the controller reads; `rest` stands for all others. */
  datatype Record = Record(
    memoryId: string, rawText: string, memoryType: string, memoryLayer: string, scope: string, runId: Option<string>,
    expired: bool, storedAt: Option<int>, rest: seq<byte>)

  /** What parsing a line can yield. */
  datatype Json = Object(record: Record) | NonObject | Invalid

  datatype StoreError = Malformed(offset: nat) | NonObjectRecord

  predicate IsBlank(line: seq<byte>) {
    forall i :: 0 <= i < |line| ==> line[i] == 32 || 9 <= line[i] <= 13
  }

  /** The blanks that JSON allows before a value: `bytes.strip` also removes vertical tabs and form feeds. */
  predicate IsJsonSpace(line: seq<byte>) {
    forall i :: 0 <= i < |line| ==> line[i] == 32 || line[i] == 9 || line[i] == 10 || line[i] == 13
  }

  // ---------- Loading ----------

  /** Where the first line ends: behind its newline, or at the end of the file. */
  function LineEnd(file: seq<byte>): (e: nat)
    requires file != []
    ensures 0 < e <= |file|
    ensures NEWLINE !in file[..e - 1]
    ensures file[e - 1] == NEWLINE || e == |file|
  {
    if file[0] == NEWLINE || |file| == 1 then 1
    else
      var e := 1 + LineEnd(file[1..]);
      assert file[..e - 1] == [file[0]] + file[1..][..e - 2];
      e
  }

  datatype LineRead = Skipped | Torn | Failed(error: StoreError) | Taken(record: Record)

  /** One line: a blank one is skipped, and one that has no newline and does not parse - the last - is taken
      to be torn; any other line that does not parse makes the file malformed. */
  function ReadLine(line: seq<byte>, offset: nat, loads: seq<byte> -> Json): LineRead
    requires line != []
  {
    if IsBlank(line) then Skipped
    else
      match loads(line)
      case Invalid => if line[|line| - 1] != NEWLINE then Torn else Failed(Malformed(offset))
      case NonObject => Failed(NonObjectRecord)
      case Object(r) => Taken(r)
  }

  function Then(read: LineRead, others: Result<seq<Record>, StoreError>): Result<seq<Record>, StoreError> {
    match read
    case Skipped => others
    case Torn => Ok([])
    case Failed(error) => Err(error)
    case Taken(r) => if others.Ok? then Ok([r] + others.value) else others
  }

  /** The records of a file that starts at this offset. */
  function Load(file: seq<byte>, offset: nat, loads: seq<byte> -> Json): Result<seq<Record>, StoreError>
    decreases |file|
  {
    if file == [] then Ok([])
    else
      var e := LineEnd(file);
      Then(ReadLine(file[..e], offset, loads), Load(file[e..], offset + e, loads))
  }

  /** First one list of records, then another. */
  function Joined(first: Result<seq<Record>, StoreError>, second: Result<seq<Record>, StoreError>): Result<seq<Record>, StoreError> {
    if first.Err? then first else if second.Err? then second else Ok(first.value + second.value)
  }

  lemma ThenJoined(read: LineRead, first: Result<seq<Record>, StoreError>, second: Result<seq<Record>, StoreError>)
    requires !read.Torn?
    ensures Then(read, Joined(first, second)) == Joined(Then(read, first), second)
  {
    if read.Taken? && first.Ok? && second.Ok? {
      assert [read.record] + (first.value + second.value) == ([read.record] + first.value) + second.value;
    }
  }

  lemma JoinedTaken(records: seq<Record>, r: Record, others: Result<seq<Record>, StoreError>)
    ensures Joined(Ok(records), Then(Taken(r), others)) == Joined(Ok(records + [r]), others)
  {
    if others.Ok? {
      assert records + ([r] + others.value) == (records + [r]) + others.value;
    }
  }

  lemma JoinedNothing(result: Result<seq<Record>, StoreError>)
    ensures Joined(Ok([]), result) == result && (result.Ok? ==> Joined(result, Ok([])) == result)
  {
    if result.Ok? {
      assert [] + result.value == result.value == result.value + [];
    }
  }

  /** What reading one more line does to the outcome, when `records` have been read before it. */
  lemma LoadOneLine(file: seq<byte>, offset: nat, records: seq<Record>, loads: seq<byte> -> Json)
    requires file != []
    ensures var e := LineEnd(file);
      var line, others := file[..e], Load(file[e..], offset + e, loads);
      var all := Joined(Ok(records), Load(file, offset, loads));
      if IsBlank(line) then all == Joined(Ok(records), others)
      else
        match loads(line)
        case Invalid => all == if line[e - 1] != NEWLINE then Ok(records) else Err(Malformed(offset))
        case NonObject => all == Err(NonObjectRecord)
        case Object(r) => all == Joined(Ok(records + [r]), others)
  {
    var e := LineEnd(file);
    var line, others := file[..e], Load(file[e..], offset + e, loads);
    JoinedNothing(Ok(records));
    if !IsBlank(line) && loads(line).Object? {
      JoinedTaken(records, loads(line).record, others);
    }
  }

  lemma LoadNothing(offset: nat, records: seq<Record>, loads: seq<byte> -> Json)
    ensures Joined(Ok(records), Load([], offset, loads)) == Ok(records)
  {
    JoinedNothing(Ok(records));
  }

  /** `_load_jsonl_records`: reads line by line from the start. */
  method LoadJsonl(file: Option<seq<byte>>, loads: seq<byte> -> Json) returns (r: Result<seq<Record>, StoreError>)
    ensures r == Load(Contents(file), 0, loads)
  {
    hide Load, Then, ReadLine, LineEnd, Joined, IsBlank;
    var records: seq<Record> := [];
    LoadNothing(0, [], loads);
    JoinedNothing(Load([], 0, loads));
    if file.None? {
      return Ok(records);
    }
    var bytes := file.value;
    var offset := 0;
    assert bytes[0..] == bytes;
    JoinedNothing(Load(bytes, 0, loads));
    while offset < |bytes|
      invariant offset <= |bytes|
      invariant Load(bytes, 0, loads) == Joined(Ok(records), Load(bytes[offset..], offset, loads))
    {
      var recordOffset, here := offset, bytes[offset..];
      var e := LineEnd(here);
      var line := here[..e];
      LoadOneLine(here, offset, records, loads);
      assert bytes[offset + e..] == here[e..];
      offset := offset + e;
      if IsBlank(line) {
        continue;
      }
      match loads(line) {
        case Invalid =>
          if offset == |bytes| && line[|line| - 1] != NEWLINE {
            break;
          }
          return Err(Malformed(recordOffset));
        case NonObject =>
          return Err(NonObjectRecord);
        case Object(record) =>
          records := records + [record];
      }
    }
    assert bytes[|bytes|..] == [];
    LoadNothing(offset, records, loads);
    return Ok(records);
  }

  function Contents(file: Option<seq<byte>>): seq<byte> {
    if file.Some? then file.value else []
  }

  // ---------- Writing ----------

  function LineOf(r: Record, dumps: Record -> seq<byte>): (line: seq<byte>)
    ensures line != []
  {
    dumps(r) + [NEWLINE]
  }

  function FileOf(rs: seq<Record>, dumps: Record -> seq<byte>): seq<byte> {
    if rs == [] then [] else FileOf(rs[..|rs| - 1], dumps) + LineOf(rs[|rs| - 1], dumps)
  }

  /** The file of a list: each record's object on a line of its own, in order. */
  lemma FileIsLines(rs: seq<Record>, r: Record, dumps: Record -> seq<byte>)
    ensures FileOf([], dumps) == [] && FileOf(rs + [r], dumps) == FileOf(rs, dumps) + (dumps(r) + [10])
  {
    assert (rs + [r])[..|rs|] == rs;
  }

  /** What the store relies on in the JSON codec: an object is written without line breaks, starting with a
      brace; it reads back with or without the newline behind it or JSON blanks before it; and neither a proper
      prefix of it nor a line in which something else stands before it parses. */
  ghost predicate IsCodec(dumps: Record -> seq<byte>, loads: seq<byte> -> Json) {
    && (forall r :: dumps(r) != [] && dumps(r)[0] == 123 && NEWLINE !in dumps(r))
    && (forall r :: loads(dumps(r)) == Object(r))
    && (forall r, n :: 0 < n < |dumps(r)| ==> loads(dumps(r)[..n]) == Invalid)
    && (forall r, p :: NEWLINE !in p ==> loads(p + LineOf(r, dumps)) == if IsJsonSpace(p) then Object(r) else Invalid)
  }

  /** A file whose next line can only start a record of its own. */
  predicate EndsLine(file: seq<byte>) {
    file == [] || file[|file| - 1] == NEWLINE
  }

  lemma {:induction false} LineEndOf(a: seq<byte>, b: seq<byte>)
    requires a != [] && NEWLINE !in a[..|a| - 1] && (a[|a| - 1] == NEWLINE || b == [])
    ensures LineEnd(a + b) == |a|
  {
    if |a| > 1 {
      assert a[0] in a[..|a| - 1];
      assert (a + b)[1..] == a[1..] + b;
      assert a[1..][..|a| - 2] == a[..|a| - 1][1..];
      LineEndOf(a[1..], b);
    }
  }

  /** Reading a file from its first line on. */
  lemma LoadFirst(line: seq<byte>, others: seq<byte>, offset: nat, loads: seq<byte> -> Json)
    requires line != [] && NEWLINE !in line[..|line| - 1] && (line[|line| - 1] == NEWLINE || others == [])
    ensures Load(line + others, offset, loads) == Then(ReadLine(line, offset, loads), Load(others, offset + |line|, loads))
  {
    LineEndOf(line, others);
    assert (line + others)[..|line|] == line && (line + others)[|line|..] == others;
  }

  /** A file of a single line. */
  lemma LoadSingle(line: seq<byte>, offset: nat, loads: seq<byte> -> Json)
    requires line != [] && NEWLINE !in line[..|line| - 1]
    ensures Load(line, offset, loads) == Then(ReadLine(line, offset, loads), Ok([]))
  {
    LoadFirst(line, [], offset, loads);
    assert line + [] == line;
  }

  /** Reading a file whose first part ends a line: the records of the parts, one after the other. */
  lemma {:induction false} LoadConcat(a: seq<byte>, b: seq<byte>, offset: nat, loads: seq<byte> -> Json)
    requires EndsLine(a)
    ensures Load(a + b, offset, loads) == Joined(Load(a, offset, loads), Load(b, offset + |a|, loads))
    decreases |a|
  {
    hide LineEnd, ReadLine, Then, Joined, Load;
    if a == [] {
      LoadNothingFirst(b, offset, loads);
    } else {
      var e := LineEnd(a);
      var line, others := a[..e], a[e..];
      assert line[..e - 1] == a[..e - 1];
      assert a == line + others && a + b == line + (others + b);
      LoadFirst(line, others, offset, loads);
      LoadFirst(line, others + b, offset, loads);
      LoadConcat(others, b, offset + e, loads);
      assert offset + e + |others| == offset + |a|;
      NotTorn(line, offset, loads);
      var read := ReadLine(line, offset, loads);
      var first, second := Load(others, offset + e, loads), Load(b, offset + |a|, loads);
      ThenJoined(read, first, second);
      calc {
        Load(a + b, offset, loads);
        Then(read, Load(others + b, offset + e, loads));
        Then(read, Joined(first, second));
        Joined(Then(read, first), second);
        Joined(Load(a, offset, loads), second);
      }
    }
  }

  lemma LoadNothingFirst(b: seq<byte>, offset: nat, loads: seq<byte> -> Json)
    ensures Load([] + b, offset, loads) == Joined(Load([], offset, loads), Load(b, offset, loads))
  {
    assert [] + b == b;
    JoinedNothing(Load(b, offset, loads));
  }

  lemma NotTorn(line: seq<byte>, offset: nat, loads: seq<byte> -> Json)
    requires line != [] && line[|line| - 1] == NEWLINE
    ensures !ReadLine(line, offset, loads).Torn?
  {
  }

  /** The first n bytes of a record's line: nothing yet, a torn record that is ignored, or the record. */
  lemma TornLine(r: Record, n: nat, offset: nat, dumps: Record -> seq<byte>, loads: seq<byte> -> Json)
    requires IsCodec(dumps, loads) && n <= |LineOf(r, dumps)|
    ensures Load(LineOf(r, dumps)[..n], offset, loads) == Ok(if n < |dumps(r)| then [] else [r])
  {
    hide IsCodec, Load, IsBlank, IsJsonSpace;
    var text, line := dumps(r), LineOf(r, dumps);
    if n == |line| {
      assert line[..n] == [] + line;
      TailThenLine([], r, offset, dumps, loads);
      NothingIsBlank();
    } else if n > 0 {
      assert line[..n] == text[..n];
      TornText(r, n, offset, dumps, loads);
    } else {
      assert line[..0] == [];
      BlankLoadsNothing([], offset, loads);
      NothingIsBlank();
      assert dumps(r) != [] by { NonEmptyText(r, dumps, loads); }
    }
  }

  lemma NonEmptyText(r: Record, dumps: Record -> seq<byte>, loads: seq<byte> -> Json)
    requires IsCodec(dumps, loads)
    ensures dumps(r) != []
  {
  }

  lemma NothingIsBlank()
    ensures IsBlank([]) && IsJsonSpace([])
  {
  }

  /** Without its newline a record is torn, or just complete. */
  lemma TornText(r: Record, n: nat, offset: nat, dumps: Record -> seq<byte>, loads: seq<byte> -> Json)
    requires IsCodec(dumps, loads) && 0 < n <= |dumps(r)|
    ensures Load(dumps(r)[..n], offset, loads) == Ok(if n < |dumps(r)| then [] else [r])
  {
    hide Load;
    var text := dumps(r);
    var part := text[..n];
    assert part[..n - 1] == text[..n - 1];
    LoadSingle(part, offset, loads);
    assert [r] + [] == [r];
    assert part[0] == 123 && part[n - 1] in text;
    assert n == |text| ==> part == text;
  }

  /** An interrupted append leaves the state before or the state after, whatever byte it stops at. */
  lemma InterruptedAppend(file: seq<byte>, rs: seq<Record>, r: Record, n: nat, dumps: Record -> seq<byte>, loads: seq<byte> -> Json)
    requires IsCodec(dumps, loads) && EndsLine(file) && Load(file, 0, loads) == Ok(rs) && n <= |LineOf(r, dumps)|
    ensures Load(file + LineOf(r, dumps)[..n], 0, loads) == Ok(if n < |dumps(r)| then rs else rs + [r])
  {
    hide Load, IsCodec, EndsLine;
    LoadConcat(file, LineOf(r, dumps)[..n], 0, loads);
    TornLine(r, n, |file|, dumps, loads);
    assert rs + [] == rs;
  }

  lemma CompletedAppend(file: seq<byte>, rs: seq<Record>, r: Record, dumps: Record -> seq<byte>, loads: seq<byte> -> Json)
    requires IsCodec(dumps, loads) && EndsLine(file) && Load(file, 0, loads) == Ok(rs)
    ensures Load(file + LineOf(r, dumps), 0, loads) == Ok(rs + [r]) && EndsLine(file + LineOf(r, dumps))
  {
    var line := LineOf(r, dumps);
    InterruptedAppend(file, rs, r, |line|, dumps, loads);
    assert line[..|line|] == line;
  }

  lemma {:induction false} WrittenFileLoads(rs: seq<Record>, dumps: Record -> seq<byte>, loads: seq<byte> -> Json)
    requires IsCodec(dumps, loads)
    ensures Load(FileOf(rs, dumps), 0, loads) == Ok(rs) && EndsLine(FileOf(rs, dumps))
  {
    hide IsCodec, Load, LineOf;
    if rs == [] {
      LoadNothing(0, [], loads);
      JoinedNothing(Load([], 0, loads));
    } else {
      var n := |rs| - 1;
      WrittenFileLoads(rs[..n], dumps, loads);
      CompletedAppend(FileOf(rs[..n], dumps), rs[..n], rs[n], dumps, loads);
      assert rs == rs[..n] + [rs[n]];
    }
  }

  /** What a line that ends in a newline does between two parts of a file. A blank one does nothing; one that does not
      parse makes the whole file malformed at its offset, unless an error comes before it; so does a value that is
      no object; and any other adds its record. */
  lemma LineBetween(a: seq<byte>, line: seq<byte>, b: seq<byte>, loads: seq<byte> -> Json)
    requires EndsLine(a) && Load(a, 0, loads).Ok?
    requires line != [] && NEWLINE !in line[..|line| - 1] && line[|line| - 1] == NEWLINE
    ensures var whole, before := Load(a + (line + b), 0, loads), Load(a, 0, loads).value;
      var rest := Load(b, |a| + |line|, loads);
      if forall i :: 0 <= i < |line| ==> line[i] == 32 || 9 <= line[i] <= 13 then whole == Joined(Ok(before), rest)
      else
        match loads(line)
        case Invalid => whole == Err(Malformed(|a|))
        case NonObject => whole == Err(NonObjectRecord)
        case Object(r) => whole == Joined(Ok(before + [r]), rest)
  {
    hide Load, LineEnd, EndsLine;
    LoadConcat(a, line + b, 0, loads);
    LoadFirst(line, b, |a|, loads);
    var before, rest := Load(a, 0, loads).value, Load(b, |a| + |line|, loads);
    if loads(line).Object? {
      JoinedTaken(before, loads(line).record, rest);
    }
  }

  /** What a last line without a newline does: one that does not parse is ignored, however it came about. */
  lemma LastLine(a: seq<byte>, line: seq<byte>, loads: seq<byte> -> Json)
    requires EndsLine(a) && Load(a, 0, loads).Ok?
    requires line != [] && NEWLINE !in line
    ensures var whole, before := Load(a + line, 0, loads), Load(a, 0, loads).value;
      if forall i :: 0 <= i < |line| ==> line[i] == 32 || 9 <= line[i] <= 13 then whole == Ok(before)
      else
        match loads(line)
        case Invalid => whole == Ok(before)
        case NonObject => whole == Err(NonObjectRecord)
        case Object(r) => whole == Ok(before + [r])
  {
    hide Load, LineEnd, EndsLine;
    assert forall i :: 0 <= i < |line| - 1 ==> line[..|line| - 1][i] == line[i];
    LoadConcat(a, line, 0, loads);
    LoadSingle(line, |a|, loads);
    var before := Load(a, 0, loads).value;
    assert before + [] == before;
    if loads(line).Object? {
      JoinedTaken(before, loads(line).record, Ok([]));
      assert before + [loads(line).record] + [] == before + [loads(line).record];
    }
  }

  // ---------- The limit of append durability: an unfinished last line ----------

  /** The bytes behind the last newline. */
  function Tail(file: seq<byte>): seq<byte> {
    if EndsLine(file) then [] else Tail(file[..|file| - 1]) + [file[|file| - 1]]
  }

  lemma TailSnoc(file: seq<byte>, b: byte)
    ensures Tail(file + [b]) == if b == NEWLINE then [] else Tail(file) + [b]
  {
    assert (file + [b])[..|file|] == file;
  }

  lemma {:induction false} TailSplits(file: seq<byte>)
    ensures var t := Tail(file);
      && |t| <= |file| && file == file[..|file| - |t|] + t
      && NEWLINE !in t && EndsLine(file[..|file| - |t|])
  {
    if !EndsLine(file) {
      hide Tail, EndsLine;
      var n := |file| - 1;
      var rest, b := file[..n], file[n];
      assert file == rest + [b];
      TailSplits(rest);
      TailSnoc(rest, b);
      var t := Tail(rest);
      if b != NEWLINE {
        assert file[..n - |t|] == rest[..n - |t|];
        assert rest[..n - |t|] + (t + [b]) == file;
      } else {
        LineEndsHere(rest);
      }
    }
  }

  lemma LineEndsHere(file: seq<byte>)
    ensures EndsLine(file + [NEWLINE])
  {
  }

  /** Appending to a loadable file is durable EXACTLY when nothing but JSON blanks follows its last newline:
      after a torn or newline-less tail, the next append makes the file malformed. */
  lemma AppendIsDurableIff(file: seq<byte>, rs: seq<Record>, r: Record, dumps: Record -> seq<byte>, loads: seq<byte> -> Json)
    requires IsCodec(dumps, loads) && Load(file, 0, loads) == Ok(rs)
    ensures Load(file + LineOf(r, dumps), 0, loads) == Ok(rs + [r]) <==> IsJsonSpace(Tail(file))
    ensures !IsJsonSpace(Tail(file)) ==> Load(file + LineOf(r, dumps), 0, loads).Err?
  {
    hide Load, Tail, LineOf, IsBlank, IsJsonSpace, EndsLine, IsCodec;
    TailSplits(file);
    var t, line := Tail(file), LineOf(r, dumps);
    var head := file[..|file| - |t|];
    assert file + line == head + (t + line) && file == head + t;
    LoadConcat(head, t, 0, loads);
    LoadConcat(head, t + line, 0, loads);
    TailThenLine(t, r, |head|, dumps, loads);
    JsonSpaceIsBlank(t);
    if IsJsonSpace(t) {
      BlankLoadsNothing(t, |head|, loads);
      JoinedNothing(Load(head, 0, loads));
    }
  }

  lemma {:induction false} TailOf(file: seq<byte>, part: seq<byte>)
    requires EndsLine(file) && NEWLINE !in part
    ensures Tail(file + part) == part
    decreases |part|
  {
    if part == [] {
      assert file + part == file;
    } else {
      var n := |part| - 1;
      var rest, b := part[..n], part[n];
      assert part == rest + [b] && file + part == (file + rest) + [b];
      TailOf(file, rest);
      TailSnoc(file + rest, b);
    }
  }

  /** A record torn inside its line begins with a brace. */
  lemma TornIsNoSpace(r: Record, n: nat, dumps: Record -> seq<byte>, loads: seq<byte> -> Json)
    requires IsCodec(dumps, loads) && 0 < n < |LineOf(r, dumps)|
    ensures var part := LineOf(r, dumps)[..n]; NEWLINE !in part && !IsJsonSpace(part)
  {
    var part := LineOf(r, dumps)[..n];
    assert part == dumps(r)[..n] && part[0] == 123;
  }

  /** A crash during an append and then one more append: the file loads EXACTLY when the crash came before the
      first or after the last byte of its line. A record torn anywhere in between costs the whole file. */
  lemma AppendAfterCrash(file: seq<byte>, rs: seq<Record>, torn: Record, n: nat, r: Record,
                         dumps: Record -> seq<byte>, loads: seq<byte> -> Json)
    requires IsCodec(dumps, loads) && EndsLine(file) && Load(file, 0, loads) == Ok(rs) && n <= |LineOf(torn, dumps)|
    ensures var loaded := Load(file + LineOf(torn, dumps)[..n] + LineOf(r, dumps), 0, loads);
      && (loaded.Ok? <==> n == 0 || n == |LineOf(torn, dumps)|)
      && (n == 0 ==> loaded == Ok(rs + [r]))
      && (n == |LineOf(torn, dumps)| ==> loaded == Ok(rs + [torn] + [r]))
  {
    hide Load, Tail, IsBlank, IsJsonSpace, EndsLine, IsCodec, LineOf;
    var line := LineOf(torn, dumps);
    var left := file + line[..n];
    if n == 0 {
      assert left == file;
      CompletedAppend(file, rs, r, dumps, loads);
    } else if n == |line| {
      assert left == file + line;
      CompletedAppend(file, rs, torn, dumps, loads);
      CompletedAppend(left, rs + [torn], r, dumps, loads);
    } else {
      InterruptedAppend(file, rs, torn, n, dumps, loads);
      TornIsNoSpace(torn, n, dumps, loads);
      TailOf(file, line[..n]);
      AppendIsDurableIff(left, Load(left, 0, loads).value, r, dumps, loads);
    }
  }

  lemma JsonSpaceIsBlank(t: seq<byte>)
    ensures IsJsonSpace(t) ==> IsBlank(t)
  {
  }

  lemma TailThenLine(t: seq<byte>, r: Record, offset: nat, dumps: Record -> seq<byte>, loads: seq<byte> -> Json)
    requires IsCodec(dumps, loads) && NEWLINE !in t
    ensures Load(t + LineOf(r, dumps), offset, loads) == if IsJsonSpace(t) then Ok([r]) else Err(Malformed(offset))
  {
    var last := t + LineOf(r, dumps);
    assert last[..|last| - 1] == t + dumps(r);
    LoadSingle(last, offset, loads);
    assert last[|t|] == 123 && last[|last| - 1] == NEWLINE;
    assert [r] + [] == [r];
    assert loads(t + LineOf(r, dumps)) == if IsJsonSpace(t) then Object(r) else Invalid;
  }

  lemma BlankLoadsNothing(t: seq<byte>, offset: nat, loads: seq<byte> -> Json)
    requires NEWLINE !in t && IsBlank(t)
    ensures Load(t, offset, loads) == Ok([])
  {
    if t != [] {
      LoadSingle(t, offset, loads);
    }
  }

  // ---------- The store ----------

  /** The controller's list, and the bytes of its file. */
  datatype Store = Store(records: seq<Record>, file: Option<seq<byte>>)

  datatype Operation = Ingest(record: Record) | Delete(memoryId: string) | Maintain(now: int)

  const WEEK: int := 7 * 24 * 3600

  predicate IsStale(r: Record, now: int) {
    !r.expired && r.storedAt.Some? && now - r.storedAt.value > WEEK
  }

  function Expire(r: Record, now: int): Record {
    if IsStale(r, now) then r.(expired := true) else r
  }

  function ExpireAll(rs: seq<Record>, now: int): (es: seq<Record>)
    ensures |es| == |rs|
  {
    seq(|rs|, i requires 0 <= i < |rs| => Expire(rs[i], now))
  }

  function OtherRecord(id: string): Record -> bool {
    (r: Record) => r.memoryId != id
  }

  function WithoutId(rs: seq<Record>, id: string): (r: seq<Record>)
    ensures forall x :: x in r <==> x in rs && x.memoryId != id
    ensures |r| <= |rs|
  {
    Filter(rs, OtherRecord(id))
  }

  /** What an operation does to the list alone. */
  function Effect(rs: seq<Record>, op: Operation): seq<Record> {
    match op
    case Ingest(r) => rs + [r]
    case Delete(id) => WithoutId(rs, id)
    case Maintain(now) => ExpireAll(rs, now)
  }

  /** What it does to the file: ingesting appends a line, a deletion or expiry that changed something rewrites. */
  function Apply(s: Store, op: Operation, dumps: Record -> seq<byte>): Store {
    var after := Effect(s.records, op);
    Store(after,
      match op
      case Ingest(r) => Some(Contents(s.file) + LineOf(r, dumps))
      case Delete(id) => if |after| < |s.records| then Some(FileOf(after, dumps)) else s.file
      case Maintain(now) => if after != s.records then Some(FileOf(after, dumps)) else s.file)
  }

  function Run(s: Store, ops: seq<Operation>, dumps: Record -> seq<byte>): Store {
    if ops == [] then s else Apply(Run(s, ops[..|ops| - 1], dumps), ops[|ops| - 1], dumps)
  }

  /** Loading the file yields exactly the list, and the next append will be durable too. */
  ghost predicate Durable(s: Store, loads: seq<byte> -> Json) {
    EndsLine(Contents(s.file)) && Load(Contents(s.file), 0, loads) == Ok(s.records)
  }

  lemma ApplyIsDurable(s: Store, op: Operation, dumps: Record -> seq<byte>, loads: seq<byte> -> Json)
    requires IsCodec(dumps, loads) && Durable(s, loads)
    ensures Durable(Apply(s, op, dumps), loads)
  {
    match op
    case Ingest(r) => CompletedAppend(Contents(s.file), s.records, r, dumps, loads);
    case Delete(id) =>
      NothingLeftOut(s.records, OtherRecord(id));
      WrittenFileLoads(WithoutId(s.records, id), dumps, loads);
    case Maintain(now) => WrittenFileLoads(ExpireAll(s.records, now), dumps, loads);
  }

  /** After any sequential run from a durable store, loading the file yields exactly the list in memory. */
  lemma {:induction false} RunIsDurable(s: Store, ops: seq<Operation>, dumps: Record -> seq<byte>, loads: seq<byte> -> Json)
    requires IsCodec(dumps, loads) && Durable(s, loads)
    ensures Durable(Run(s, ops, dumps), loads)
  {
    if ops != [] {
      RunIsDurable(s, ops[..|ops| - 1], dumps, loads);
      ApplyIsDurable(Run(s, ops[..|ops| - 1], dumps), ops[|ops| - 1], dumps, loads);
    }
  }

  // ---------- Crashes ----------

  /** The files on disk: the store's own, and the temporary one of a rewrite. */
  datatype Disk = Disk(main: Option<seq<byte>>, temp: Option<seq<byte>>)

  /** The disks a crash can leave in the course of an operation. An append may stop at any byte. A rewrite
      fills the temporary file byte by byte, replaces the main file by it in one step, and removes nothing else. */
  ghost predicate CrashState(s: Store, op: Operation, dumps: Record -> seq<byte>, d: Disk) {
    var after := Apply(s, op, dumps);
    if op.Ingest? then
      d == Disk(s.file, None)
      || exists n :: 0 <= n <= |LineOf(op.record, dumps)| && d == Disk(Some(Contents(s.file) + LineOf(op.record, dumps)[..n]), None)
    else
      || d == Disk(s.file, None)
      || d == Disk(after.file, None)
      || exists n :: 0 <= n <= |FileOf(after.records, dumps)| && d == Disk(s.file, Some(FileOf(after.records, dumps)[..n]))
  }

  /** A crash anywhere in an operation on a durable store loads as the state before it or the state after it. */
  lemma CrashLoadsBeforeOrAfter(s: Store, op: Operation, dumps: Record -> seq<byte>, loads: seq<byte> -> Json, d: Disk)
    requires IsCodec(dumps, loads) && Durable(s, loads) && CrashState(s, op, dumps, d)
    ensures var loaded := Load(Contents(d.main), 0, loads);
      loaded == Ok(s.records) || loaded == Ok(Effect(s.records, op))
  {
    ApplyIsDurable(s, op, dumps, loads);
    if op.Ingest? && d != Disk(s.file, None) {
      var n :| 0 <= n <= |LineOf(op.record, dumps)| && d == Disk(Some(Contents(s.file) + LineOf(op.record, dumps)[..n]), None);
      InterruptedAppend(Contents(s.file), s.records, op.record, n, dumps, loads);
    }
  }

  // ---------- The controller ----------

  datatype Report = Report(durableCount: nat, expiredIds: seq<string>)

  predicate IsDurableType(t: string) {
    t == "fact" || t == "episode" || t == "preference" || t == "goalstate" || t == "procedure"
  }

  /** The report of a maintenance run: the ids of all expired records, and the number of live durable ones. */
  function ReportOf(rs: seq<Record>): Report {
    if rs == [] then Report(0, [])
    else
      var r, before := rs[|rs| - 1], ReportOf(rs[..|rs| - 1]);
      if r.expired then before.(expiredIds := before.expiredIds + [r.memoryId])
      else if IsDurableType(r.memoryType) then before.(durableCount := before.durableCount + 1)
      else before
  }

  class MemoryController {
    var records: seq<Record>
    var file: Option<seq<byte>>
    const dumps: Record -> seq<byte>
    const loads: seq<byte> -> Json

    ghost function Model(): Store
      reads this
    {
      Store(records, file)
    }

    constructor (records: seq<Record>, file: Option<seq<byte>>, dumps: Record -> seq<byte>, loads: seq<byte> -> Json)
      ensures Model() == Store(records, file) && this.dumps == dumps && this.loads == loads
    {
      this.records, this.file, this.dumps, this.loads := records, file, dumps, loads;
    }

    /** Opening a store loads its file; the list then agrees with it. */
    static method Open(file: Option<seq<byte>>, dumps: Record -> seq<byte>, loads: seq<byte> -> Json)
      returns (r: Result<MemoryController, StoreError>)
      ensures r.Ok? <==> Load(Contents(file), 0, loads).Ok?
      ensures r.Err? ==> Load(Contents(file), 0, loads) == Err(r.error)
      ensures r.Ok? ==> fresh(r.value) && r.value.file == file && Load(Contents(file), 0, loads) == Ok(r.value.records)
    {
      var loaded := LoadJsonl(file, loads);
      if loaded.Err? {
        return Err(loaded.error);
      }
      var controller := new MemoryController(loaded.value, file, dumps, loads);
      return Ok(controller);
    }

    method Ingest(record: Record) returns (memoryId: string)
      modifies this
      ensures Model() == Apply(old(Model()), Operation.Ingest(record), dumps) && memoryId == record.memoryId
      ensures records == old(records) + [record]
      ensures file == Some(Contents(old(file)) + (dumps(record) + [10]))
      ensures IsCodec(dumps, loads) && old(Durable(Model(), loads)) ==> Durable(Model(), loads)
    {
      if IsCodecAndDurable() {
        ApplyIsDurable(Model(), Operation.Ingest(record), dumps, loads);
      }
      file := Some(Contents(file) + LineOf(record, dumps));
      records := records + [record];
      return record.memoryId;
    }

    ghost predicate IsCodecAndDurable()
      reads this
    {
      IsCodec(dumps, loads) && Durable(Model(), loads)
    }

    /** The list loses exactly the records with this id, and keeps every copy of the others and their order. */
    method DeleteRecord(memoryId: string) returns (deleted: bool)
      modifies this
      ensures Model() == Apply(old(Model()), Delete(memoryId), dumps)
      ensures deleted <==> exists r :: r in old(records) && r.memoryId == memoryId
      ensures IsSubsequence(records, old(records))
      ensures forall r :: multiset(records)[r] == if r.memoryId == memoryId then 0 else multiset(old(records))[r]
      ensures file == if deleted then Some(FileOf(records, dumps)) else old(file)
      ensures IsCodec(dumps, loads) && (deleted || old(Durable(Model(), loads))) ==> Durable(Model(), loads)
    {
      hide Filter, IsSubsequence, IsCodec, Load, Durable;
      if IsCodecAndDurable() {
        ApplyIsDurable(Model(), Delete(memoryId), dumps, loads);
      }
      FilterKeeps(records, OtherRecord(memoryId));
      NothingLeftOut(records, OtherRecord(memoryId));
      var before := |records|;
      records := WithoutId(records, memoryId);
      deleted := |records| < before;
      if deleted {
        RewriteDisk();
      }
    }

    /** `_rewrite_disk`: the whole list, line by line, then an atomic replacement. */
    method RewriteDisk()
      modifies this`file
      ensures file == Some(FileOf(records, dumps))
      ensures IsCodec(dumps, loads) ==> Durable(Model(), loads)
    {
      var bytes: seq<byte> := [];
      for i := 0 to |records|
        invariant bytes == FileOf(records[..i], dumps)
      {
        assert records[..i + 1][..i] == records[..i];
        bytes := bytes + LineOf(records[i], dumps);
      }
      assert records[..|records|] == records;
      file := Some(bytes);
      if IsCodec(dumps, loads) {
        WrittenFileLoads(records, dumps, loads);
      }
    }

    method Maintain(now: int) returns (report: Report)
      modifies this
      ensures Model() == Apply(old(Model()), Operation.Maintain(now), dumps)
      ensures report == ReportOf(records)
      ensures |records| == |old(records)|
      ensures forall i :: 0 <= i < |records| ==>
        var was := old(records[i]);
        && records[i] == was.(expired := records[i].expired)
        && (records[i].expired <==> was.expired || (was.storedAt.Some? && now - was.storedAt.value > 604800))
      ensures report.expiredIds == IdsOf(Filter(records, IsExpired()))
      ensures report.durableCount == |Filter(records, IsLiveDurable())|
      ensures file == if records != old(records) then Some(FileOf(records, dumps)) else old(file)
      ensures IsCodec(dumps, loads) && (records != old(records) || old(Durable(Model(), loads))) ==> Durable(Model(), loads)
    {
      hide ReportOf, IsCodec, Load, Durable, Apply, IsDurableType;
      MaintainedIs(Model(), now, dumps);
      if IsCodecAndDurable() {
        ApplyIsDurable(Model(), Operation.Maintain(now), dumps, loads);
      }
      NothingReported();
      ghost var before := records;
      var expiredIds: seq<string> := [];
      var durable: nat := 0;
      var mutated := false;
      for i := 0 to |records|
        invariant |records| == |before| && file == old(file)
        invariant forall j :: 0 <= j < i ==> records[j] == Expire(before[j], now)
        invariant forall j :: i <= j < |records| ==> records[j] == before[j]
        invariant Report(durable, expiredIds) == ReportOf(records[..i])
        invariant mutated <==> exists j :: 0 <= j < i && IsStale(before[j], now)
      {
        var rec := records[i];
        if IsStale(rec, now) {
          records := records[i := rec.(expired := true)];
          mutated := true;
        }
        ReportGrows(records, i);
        if records[i].expired {
          expiredIds := expiredIds + [rec.memoryId];
        } else if IsDurableType(rec.memoryType) {
          durable := durable + 1;
        }
      }
      assert records == ExpireAll(before, now);
      assert records[..|records|] == records;
      StaleChanges(before, now);
      if mutated {
        RewriteDisk();
      }
      report := Report(durable, expiredIds);
      ReportLists(records);
    }
  }

  function IsExpired(): Record -> bool {
    (r: Record) => r.expired
  }

  /** A record that is not expired and of a type that lasts. */
  function IsLiveDurable(): Record -> bool {
    (r: Record) => !r.expired && r.memoryType in ["fact", "episode", "preference", "goalstate", "procedure"]
  }

  function IdsOf(rs: seq<Record>): (ids: seq<string>)
    ensures |ids| == |rs| && forall i :: 0 <= i < |rs| ==> ids[i] == rs[i].memoryId
  {
    seq(|rs|, i requires 0 <= i < |rs| => rs[i].memoryId)
  }

  /** The report lists the ids of the expired records in order, and counts the live records of lasting types. */
  lemma {:induction false} ReportLists(rs: seq<Record>)
    ensures ReportOf(rs).expiredIds == IdsOf(Filter(rs, IsExpired()))
    ensures ReportOf(rs).durableCount == |Filter(rs, IsLiveDurable())|
  {
    hide Filter;
    if rs == [] {
      NothingFiltered(IsExpired());
      NothingFiltered(IsLiveDurable());
    } else {
      var n := |rs| - 1;
      var before, r := rs[..n], rs[n];
      assert rs == before + [r];
      ReportLists(before);
      FilterSnoc(before, r, IsExpired());
      FilterSnoc(before, r, IsLiveDurable());
      assert IdsOf(Filter(before, IsExpired()) + [r]) == IdsOf(Filter(before, IsExpired())) + [r.memoryId];
    }
  }

  lemma NothingReported()
    ensures ReportOf([]) == Report(0, [])
  {
  }

  lemma ReportGrows(rs: seq<Record>, i: nat)
    requires i < |rs|
    ensures ReportOf(rs[..i + 1]) ==
      var r, before := rs[i], ReportOf(rs[..i]);
      if r.expired then Report(before.durableCount, before.expiredIds + [r.memoryId])
      else if IsDurableType(r.memoryType) then Report(before.durableCount + 1, before.expiredIds)
      else before
  {
    assert rs[..i + 1][..i] == rs[..i];
  }

  lemma MaintainedIs(s: Store, now: int, dumps: Record -> seq<byte>)
    ensures var after := ExpireAll(s.records, now);
      Apply(s, Operation.Maintain(now), dumps) == Store(after, if after != s.records then Some(FileOf(after, dumps)) else s.file)
  {
  }

  lemma StaleChanges(rs: seq<Record>, now: int)
    ensures ExpireAll(rs, now) != rs <==> exists j :: 0 <= j < |rs| && IsStale(rs[j], now)
  {
    if j :| 0 <= j < |rs| && IsStale(rs[j], now) {
      assert ExpireAll(rs, now)[j] != rs[j];
    } else {
      assert ExpireAll(rs, now) == rs;
    }
  }
}
