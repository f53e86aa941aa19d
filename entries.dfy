/** `parseEntry` of bibtex/bibtex.go:22-42. */
module Entries {
  import opened Wrappers
  import opened GoStrings
  import opened Authors

  /** A parsed record: field name to value. */
  type Entry = map<string, string>

  /**
   * Where the Go code indexes out of range and panics: a header line with
   * fewer than two fields (line 28 when it has none, line 29 when it has one),
   * or a later line without `=` (line 33),
   * numbered from the header line 0.
   */
  datatype EntryError = MalformedFirstLine | MalformedFieldLine(line: nat)

  /** The lines of a record, as `strings.Split(entry, "\n")`. */
  function EntryLines(entry: string): (lines: seq<string>)
    ensures |lines| >= 1
  {
    Split(entry, "\n")
  }

  /**
   * Lines 26-29: the type is the first field of the header line lower-cased,
   * the key is the second field minus its last character.
   */
  function Header(line: string): (h: Option<(string, string)>)
    ensures h.None? <==> |Fields(line)| < 2
  {
    var sl := Fields(line);
    if |sl| < 2 then None else Some((ToLower(sl[0]), sl[1][..|sl[1]| - 1]))
  }

  /** Line 36-37: only the fields named exactly `author` or `editor` are abbreviated. */
  function StoredValue(name: string, value: string): string
  {
    if name == "author" || name == "editor" then AbbrevAuthors(value) else value
  }

  /** The trimmed text before the first `=`: the name a field line stores under. */
  function NameOf(line: string): string
  {
    TrimSpace(Split(line, "=")[0])
  }

  /**
   * Lines 32-38: a field line is split on every `=`; the name is the trimmed
   * first piece and the value the trimmed second one. None if there is no `=`.
   */
  function FieldLine(line: string): (f: Option<(string, string)>)
    ensures f.Some? ==> f.value.0 == NameOf(line)
  {
    var sl := Split(line, "=");
    if |sl| < 2 then None
    else
      var name := TrimSpace(sl[0]);
      Some((name, StoredValue(name, TrimSpace(sl[1]))))
  }

  /** What lines 32-38 make of each line of a record. */
  function FieldLines(lines: seq<string>): (fs: seq<Option<(string, string)>>)
    ensures |fs| == |lines| && forall j :: 0 <= j < |lines| ==> fs[j] == FieldLine(lines[j])
  {
    seq(|lines|, j requires 0 <= j < |lines| => FieldLine(lines[j]))
  }

  /** The loop of lines 31-40 from line `i` on, storing each parsed field into `m`. */
  function FillFrom(m: Entry, fields: seq<Option<(string, string)>>, i: nat): Result<Entry, EntryError>
    requires i <= |fields|
    decreases |fields| - i
  {
    if i == |fields| then Ok(m)
    else match fields[i]
      case None => Err(MalformedFieldLine(i))
      case Some((k, v)) => FillFrom(m[k := v], fields, i + 1)
  }

  /** What `parseEntry` returns, or where it would panic. */
  function ParsedEntry(entry: string): Result<Entry, EntryError>
  {
    var lines := EntryLines(entry);
    match Header(lines[0])
    case None => Err(MalformedFirstLine)
    case Some((t, k)) => FillFrom(map["type" := t, "key" := k], FieldLines(lines), 1)
  }

  /** `parseEntry`: fills the map line by line; later fields overwrite earlier ones. */
  method ParseEntry(entry: string) returns (r: Result<Entry, EntryError>)
    ensures r == ParsedEntry(entry)
  {
    var lines := Split(entry, "\n");
    var sl := Fields(lines[0]);
    if |sl| < 2 {
      return Err(MalformedFirstLine);
    }
    var m: Entry := map[];
    m := m["type" := ToLower(sl[0])];
    m := m["key" := sl[1][..|sl[1]| - 1]];
    var i := 1;
    while i < |lines|
      invariant 1 <= i <= |lines|
      invariant FillFrom(m, FieldLines(lines), i) == ParsedEntry(entry)
    {
      var parts := Split(lines[i], "=");
      if |parts| < 2 {
        return Err(MalformedFieldLine(i));
      }
      var k, v := TrimSpace(parts[0]), TrimSpace(parts[1]);
      if k == "author" || k == "editor" {
        v := AbbrevAuthors(v);
      }
      m := m[k := v];
      i := i + 1;
    }
    r := Ok(m);
  }

  /** The first two fields of a line that starts with two words. */
  lemma {:induction false} FieldsTwo(w0: string, t0: string, w1: string, t1: string, rest: string)
    requires AllSpace(w0) && AllSpace(w1) && w1 != []
    requires t0 != [] && NoSpace(t0) && t1 != [] && NoSpace(t1)
    requires rest == [] || IsSpace(rest[0])
    ensures Fields(w0 + t0 + w1 + t1 + rest) == [t0, t1] + Fields(rest)
  {
    var tail := w1 + t1 + rest;
    assert w0 + t0 + w1 + t1 + rest == w0 + t0 + tail;
    assert tail[0] == w1[0];
    FieldsCons(w0, t0, tail);
    FieldsCons(w1, t1, rest);
  }

  /** The header line read as whitespace, type, whitespace, key and comma, anything after. */
  lemma HeaderOf(w0: string, t0: string, w1: string, t1: string, rest: string)
    requires AllSpace(w0) && AllSpace(w1) && w1 != []
    requires t0 != [] && NoSpace(t0) && t1 != [] && NoSpace(t1)
    requires rest == [] || IsSpace(rest[0])
    ensures Header(w0 + t0 + w1 + t1 + rest) == Some((ToLower(t0), t1[..|t1| - 1]))
  {
    var line := w0 + t0 + w1 + t1 + rest;
    FieldsTwo(w0, t0, w1, t1, rest);
    var sl := Fields(line);
    assert sl[0] == t0 && sl[1] == t1;
  }

  /** A line without `=` is malformed, and only such a line. */
  lemma FieldLineNone(line: string)
    ensures FieldLine(line).None? <==> '=' !in line
  {
    SplitSome(line, "=");
    IndexOfChar(line, '=');
  }

  /** A line whose first `=` is at position `i` parses, and its name is the trimmed text before `i`. */
  lemma FieldName(line: string, i: nat)
    requires i < |line| && line[i] == '=' && '=' !in line[..i]
    ensures FieldLine(line).Some? && FieldLine(line).value.0 == TrimSpace(line[..i])
  {
    var a, rest := line[..i], line[i + 1..];
    assert line == a + ['='] + rest;
    SplitOnChar(a, '=', rest);
  }

  /**
   * The name is the trimmed text before the first `=`, the value the trimmed
   * text up to the second `=`; whatever follows a second `=` is lost.
   */
  lemma FieldLineOf(a: string, b: string, c: string)
    requires '=' !in a && '=' !in b && (c == [] || c[0] == '=')
    ensures FieldLine(a + "=" + b + c) == Some((TrimSpace(a), StoredValue(TrimSpace(a), TrimSpace(b))))
  {
    var line := a + "=" + b + c;
    assert line == a + ['='] + (b + c);
    SplitOnChar(a, '=', b + c);
    if c == [] {
      assert b + c == b;
      IndexOfChar(b, '=');
      SplitNone(b, "=");
    } else {
      assert b + c == b + ['='] + c[1..];
      SplitOnChar(b, '=', c[1..]);
    }
  }

  lemma {:induction false} FillFromOk(m: Entry, fields: seq<Option<(string, string)>>, i: nat)
    requires i <= |fields|
    ensures FillFrom(m, fields, i).Ok? <==> forall j :: i <= j < |fields| ==> fields[j].Some?
    decreases |fields| - i
  {
    if i < |fields| {
      match fields[i]
      case None =>
      case Some((k, v)) => FillFromOk(m[k := v], fields, i + 1);
    }
  }

  lemma {:induction false} FillFromError(m: Entry, fields: seq<Option<(string, string)>>, i: nat, j: nat)
    requires i <= |fields|
    ensures FillFrom(m, fields, i) != Err(MalformedFirstLine)
    ensures FillFrom(m, fields, i) == Err(MalformedFieldLine(j)) <==>
      (i <= j < |fields| && fields[j].None? && forall k :: i <= k < j ==> fields[k].Some?)
    decreases |fields| - i
  {
    if i < |fields| {
      match fields[i]
      case None =>
      case Some((k, v)) => FillFromError(m[k := v], fields, i + 1, j);
    }
  }

  /** The names of the parsed fields from `i` on. */
  function NamesFrom(fields: seq<Option<(string, string)>>, i: nat): set<string>
    requires i <= |fields|
  {
    set j | i <= j < |fields| && fields[j].Some? :: fields[j].value.0
  }

  lemma {:induction false} FillFromKeys(m: Entry, fields: seq<Option<(string, string)>>, i: nat)
    requires i <= |fields| && FillFrom(m, fields, i).Ok?
    ensures FillFrom(m, fields, i).value.Keys == m.Keys + NamesFrom(fields, i)
    decreases |fields| - i
  {
    if i < |fields| {
      match fields[i]
      case Some((k, v)) =>
        FillFromKeys(m[k := v], fields, i + 1);
        assert NamesFrom(fields, i) == {k} + NamesFrom(fields, i + 1);
    }
  }

  /** A name that no field from `i` on stores under keeps its value. */
  lemma {:induction false} FillFromKeeps(m: Entry, fields: seq<Option<(string, string)>>, i: nat, name: string)
    requires i <= |fields| && FillFrom(m, fields, i).Ok?
    requires name in m && name !in NamesFrom(fields, i)
    ensures name in FillFrom(m, fields, i).value && FillFrom(m, fields, i).value[name] == m[name]
    decreases |fields| - i
  {
    if i < |fields| {
      match fields[i]
      case Some((k, v)) =>
        assert NamesFrom(fields, i + 1) <= NamesFrom(fields, i);
        FillFromKeeps(m[k := v], fields, i + 1, name);
    }
  }

  /** The last field stored under a name decides its value. */
  lemma {:induction false} FillFromLastWins(m: Entry, fields: seq<Option<(string, string)>>, i: nat, j: nat)
    requires i <= j < |fields| && FillFrom(m, fields, i).Ok? && fields[j].Some?
    requires fields[j].value.0 !in NamesFrom(fields, j + 1)
    ensures fields[j].value.0 in FillFrom(m, fields, i).value
    ensures FillFrom(m, fields, i).value[fields[j].value.0] == fields[j].value.1
    decreases |fields| - i
  {
    match fields[i]
    case Some((k, v)) =>
      if i == j {
        FillFromKeeps(m[k := v], fields, i + 1, k);
      } else {
        FillFromLastWins(m[k := v], fields, i + 1, j);
      }
  }

  /** The names of the field lines of a record, the header line excluded. */
  function FieldNames(lines: seq<string>): set<string>
  {
    set j | 1 <= j < |lines| :: NameOf(lines[j])
  }

  /** Once every field line parses, the parsed names are the field names. */
  lemma NamesOfLines(lines: seq<string>, i: nat)
    requires 1 <= i <= |lines| && forall j :: 1 <= j < |lines| ==> FieldLine(lines[j]).Some?
    ensures NamesFrom(FieldLines(lines), i) == set j | i <= j < |lines| :: NameOf(lines[j])
  {
  }

  /**
   * A record parses exactly when its header line has two fields and every
   * later line holds an `=`.
   */
  lemma ParsedEntryOk(entry: string)
    ensures ParsedEntry(entry).Ok? <==>
      |Fields(EntryLines(entry)[0])| >= 2
      && forall j :: 1 <= j < |EntryLines(entry)| ==> '=' in EntryLines(entry)[j]
  {
    var lines := EntryLines(entry);
    match Header(lines[0])
    case None =>
    case Some((t, k)) =>
      FillFromOk(map["type" := t, "key" := k], FieldLines(lines), 1);
      forall j | 1 <= j < |lines| ensures FieldLine(lines[j]).Some? <==> '=' in lines[j] {
        FieldLineNone(lines[j]);
      }
  }

  /** Failure names the first malformed line: the header, or the first later line without `=`. */
  lemma ParsedEntryError(entry: string, j: nat)
    ensures ParsedEntry(entry) == Err(MalformedFirstLine) <==> |Fields(EntryLines(entry)[0])| < 2
    ensures ParsedEntry(entry) == Err(MalformedFieldLine(j)) <==>
      |Fields(EntryLines(entry)[0])| >= 2 && 1 <= j < |EntryLines(entry)| && '=' !in EntryLines(entry)[j]
      && forall k :: 1 <= k < j ==> '=' in EntryLines(entry)[k]
  {
    var lines := EntryLines(entry);
    match Header(lines[0])
    case None =>
    case Some((t, k)) =>
      FillFromError(map["type" := t, "key" := k], FieldLines(lines), 1, j);
      forall i | 1 <= i < |lines| ensures FieldLine(lines[i]).Some? <==> '=' in lines[i] {
        FieldLineNone(lines[i]);
      }
  }

  /** A parsed record holds `type`, `key` and the name of every field line, and nothing else. */
  lemma ParsedEntryKeys(entry: string)
    requires ParsedEntry(entry).Ok?
    ensures ParsedEntry(entry).value.Keys == {"type", "key"} + FieldNames(EntryLines(entry))
  {
    var lines := EntryLines(entry);
    match Header(lines[0])
    case Some((t, k)) =>
      var fields := FieldLines(lines);
      FillFromOk(map["type" := t, "key" := k], fields, 1);
      FillFromKeys(map["type" := t, "key" := k], fields, 1);
      NamesOfLines(lines, 1);
  }

  /** The value stored under a name comes from the last line with that name. */
  lemma ParsedEntryLastWins(entry: string, j: nat)
    requires ParsedEntry(entry).Ok? && 1 <= j < |EntryLines(entry)|
    requires forall j' :: j < j' < |EntryLines(entry)| ==> NameOf(EntryLines(entry)[j']) != NameOf(EntryLines(entry)[j])
    ensures FieldLine(EntryLines(entry)[j]).Some?
    ensures NameOf(EntryLines(entry)[j]) in ParsedEntry(entry).value
    ensures ParsedEntry(entry).value[NameOf(EntryLines(entry)[j])] == FieldLine(EntryLines(entry)[j]).value.1
  {
    var lines := EntryLines(entry);
    match Header(lines[0])
    case Some((t, k)) =>
      var fields := FieldLines(lines);
      FillFromOk(map["type" := t, "key" := k], fields, 1);
      NamesOfLines(lines, j + 1);
      FillFromLastWins(map["type" := t, "key" := k], fields, 1, j);
  }

  /** Unless a field line is named `type` or `key`, those two keep what the header line gave. */
  lemma ParsedEntryHeader(entry: string)
    requires ParsedEntry(entry).Ok?
    ensures Header(EntryLines(entry)[0]).Some?
    ensures "type" in ParsedEntry(entry).value && "key" in ParsedEntry(entry).value
    ensures "type" !in FieldNames(EntryLines(entry)) ==>
      ParsedEntry(entry).value["type"] == Header(EntryLines(entry)[0]).value.0
    ensures "key" !in FieldNames(EntryLines(entry)) ==>
      ParsedEntry(entry).value["key"] == Header(EntryLines(entry)[0]).value.1
  {
    var lines := EntryLines(entry);
    match Header(lines[0])
    case Some((t, k)) =>
      var m := map["type" := t, "key" := k];
      var fields := FieldLines(lines);
      FillFromOk(m, fields, 1);
      FillFromKeys(m, fields, 1);
      NamesOfLines(lines, 1);
      if "type" !in FieldNames(lines) {
        FillFromKeeps(m, fields, 1, "type");
      }
      if "key" !in FieldNames(lines) {
        FillFromKeeps(m, fields, 1, "key");
      }
  }
}
