/** export_database_to_json of vlc-plugin/export_db_cache.py: the fetched rows become the entries
    list and the two lookup maps of the cache file the VLC extension reads. */
module ExportCache {
  import opened Wrappers
  import opened Bytes
  import opened Utf8

  /** A column value as sqlite3 hands it to Python: None, int, float, str or bytes. */
  datatype Value = VNone | VInt(i: int) | VReal(r: real) | VText(s: string) | VBytes(b: seq<byte>)

  /** One fetched row. `id` is the key the query orders by; it is not selected. */
  datatype Row = Row(id: int, fileName: Value, movieHash: Value, fileSize: Value, startTime: Value,
                     endTime: Value, correlationScore: Value, outroLength: Value)

  /** One element of "entries". */
  datatype Entry = Entry(fileName: Value, movieHash: Value, fileSize: Value, startTime: real,
                         endTime: real, correlationScore: real, outroLength: real)

  /** What the conversions can raise. */
  datatype ExportError = UnicodeDecodeError | TypeError | ValueError

  /** The dictionary json.dump writes. */
  datatype Output = Output(version: int, entries: seq<Entry>, byHash: map<Value, Entry>, byFile: map<Value, Entry>)

  /** The database file: absent, or present with its rows as `ORDER BY id DESC` fetches them. */
  datatype Database = Missing | Present(rows: seq<Row>)

  /** The two lookup maps and the entry field each is keyed by. */
  datatype Index = ByHash | ByFile

  /** Python truthiness. */
  predicate Truthy(v: Value)
  {
    match v
    case VNone => false
    case VInt(i) => i != 0
    case VReal(r) => r != 0.0
    case VText(s) => s != []
    case VBytes(b) => b != []
  }

  /** float(v). float(None) raises TypeError; text and bytes are read as not numeric. */
  function ToFloat(v: Value): (r: Result<real, ExportError>)
    ensures r.Ok? <==> v.VInt? || v.VReal?
    ensures r == Err(TypeError) <==> v.VNone?
    ensures r.Ok? ==> r.value == (if v.VInt? then v.i as real else v.r)
  {
    match v
    case VNone => Err(TypeError)
    case VInt(i) => Ok(i as real)
    case VReal(r) => Ok(r)
    case VText(_) => Err(ValueError)
    case VBytes(_) => Err(ValueError)
  }

  /** `movie_hash.decode('utf-8')` when it is bytes. */
  function DecodedHash(v: Value): Result<Value, ExportError>
  {
    match v
    case VBytes(b) => (if Decode(b).None? then Err(UnicodeDecodeError) else Ok(VText(Decode(b).value)))
    case VNone => Ok(v)
    case VInt(_) => Ok(v)
    case VReal(_) => Ok(v)
    case VText(_) => Ok(v)
  }

  /** The entry built from a row, with the conversions in the order the code evaluates them. */
  function ToEntry(row: Row): Result<Entry, ExportError>
  {
    match DecodedHash(row.movieHash)
    case Err(e) => Err(e)
    case Ok(hash) =>
      match ToFloat(row.startTime)
      case Err(e) => Err(e)
      case Ok(start) =>
        match ToFloat(row.endTime)
        case Err(e) => Err(e)
        case Ok(end) =>
          match (if row.correlationScore.VBytes? then Ok(0.0) else ToFloat(row.correlationScore))
          case Err(e) => Err(e)
          case Ok(score) =>
            match (if row.outroLength.VNone? then Ok(0.0) else ToFloat(row.outroLength))
            case Err(e) => Err(e)
            case Ok(outro) => Ok(Entry(row.fileName, hash, row.fileSize, start, end, score, outro))
  }

  /** The entries of the rows in fetch order, or the error of the first row that fails. */
  function Entries(rows: seq<Row>): Result<seq<Entry>, ExportError>
  {
    if rows == [] then Ok([])
    else
      match Entries(rows[..|rows| - 1])
      case Err(e) => Err(e)
      case Ok(es) =>
        match ToEntry(rows[|rows| - 1])
        case Err(e) => Err(e)
        case Ok(entry) => Ok(es + [entry])
  }

  /** Once a prefix of the rows fails, the whole export fails with the same error. */
  lemma {:induction false} ErrorPersists(rows: seq<Row>, n: nat)
    requires n <= |rows| && Entries(rows[..n]).Err?
    ensures Entries(rows) == Entries(rows[..n])
    decreases |rows| - n
  {
    if n < |rows| {
      assert rows[..n + 1][..n] == rows[..n];
      ErrorPersists(rows, n + 1);
    } else {
      assert rows[..n] == rows;
    }
  }

  /** One more row: its entry is appended, or its error ends the conversion. */
  lemma EntriesStep(rows: seq<Row>, i: nat, es: seq<Entry>)
    requires i < |rows| && Entries(rows[..i]) == Ok(es)
    ensures Entries(rows[..i + 1]) == (if ToEntry(rows[i]).Err? then Err(ToEntry(rows[i]).error)
                                       else Ok(es + [ToEntry(rows[i]).value]))
  {
    assert rows[..i + 1][..i] == rows[..i];
  }

  /** The key an entry is filed under; the hash key is the decoded hash. */
  function KeyOf(e: Entry, ix: Index): Value
  {
    match ix
    case ByHash => e.movieHash
    case ByFile => e.fileName
  }

  /** A lookup map built by writing each entry with a truthy key, in order. */
  function Lookup(entries: seq<Entry>, ix: Index): map<Value, Entry>
  {
    if entries == [] then map[]
    else
      var m := Lookup(entries[..|entries| - 1], ix);
      var e := entries[|entries| - 1];
      if Truthy(KeyOf(e, ix)) then m[KeyOf(e, ix) := e] else m
  }

  /** One more entry: written under its key when that key is truthy. */
  lemma LookupStep(es: seq<Entry>, e: Entry, ix: Index)
    ensures Lookup(es + [e], ix) == (if Truthy(KeyOf(e, ix)) then Lookup(es, ix)[KeyOf(e, ix) := e] else Lookup(es, ix))
  {
    assert (es + [e])[..|es|] == es;
  }

  /** The whole export: None for a missing database (`return False`), otherwise the output. */
  function Export(db: Database): Result<Option<Output>, ExportError>
  {
    match db
    case Missing => Ok(None)
    case Present(rows) =>
      match Entries(rows)
      case Err(e) => Err(e)
      case Ok(es) => Ok(Some(Output(1, es, Lookup(es, ByHash), Lookup(es, ByFile))))
  }

  /** export_database_to_json up to the json.dump, which is not modelled. */
  method ExportDatabaseToJson(db: Database) returns (r: Result<Option<Output>, ExportError>)
    ensures r == Export(db)
  {
    if db.Missing? {
      return Ok(None);
    }
    var rows := db.rows;
    var entries: seq<Entry> := [];
    var hashMap: map<Value, Entry> := map[];
    var filenameMap: map<Value, Entry> := map[];
    for i := 0 to |rows|
      invariant Entries(rows[..i]) == Ok(entries)
      invariant hashMap == Lookup(entries, ByHash) && filenameMap == Lookup(entries, ByFile)
    {
      var entry := ToEntry(rows[i]);
      EntriesStep(rows, i, entries);
      if entry.Err? {
        ErrorPersists(rows, i + 1);
        return Err(entry.error);
      }
      var e := entry.value;
      LookupStep(entries, e, ByHash);
      LookupStep(entries, e, ByFile);
      entries := entries + [e];
      if Truthy(e.movieHash) {
        hashMap := hashMap[e.movieHash := e];
      }
      if Truthy(e.fileName) {
        filenameMap := filenameMap[e.fileName := e];
      }
    }
    assert rows[..|rows|] == rows;
    return Ok(Some(Output(1, entries, hashMap, filenameMap)));
  }

  // ---- properties

  /** Whether float() accepts a cell as a number. */
  predicate Numeric(v: Value)
  {
    v.VInt? || v.VReal?
  }

  /** The number a numeric cell stands for. */
  function NumberOf(v: Value): real
    requires Numeric(v)
  {
    if v.VInt? then v.i as real else v.r
  }

  /** When a row converts, which error it raises otherwise, and what each field of its entry is. */
  lemma EntryConversion(row: Row)
    ensures ToEntry(row).Ok? <==>
              (row.movieHash.VBytes? ==> Decode(row.movieHash.b).Some?)
              && Numeric(row.startTime) && Numeric(row.endTime)
              && (row.correlationScore.VBytes? || Numeric(row.correlationScore))
              && (row.outroLength.VNone? || Numeric(row.outroLength))
    ensures ToEntry(row) == Err(UnicodeDecodeError) <==> row.movieHash.VBytes? && Decode(row.movieHash.b).None?
    ensures ToEntry(row).Ok? ==>
              var e := ToEntry(row).value;
              && e.fileName == row.fileName && e.fileSize == row.fileSize
              && (row.movieHash.VBytes? ==> e.movieHash.VText? && Encode(e.movieHash.s) == row.movieHash.b)
              && (!row.movieHash.VBytes? ==> e.movieHash == row.movieHash)
              && e.startTime == NumberOf(row.startTime) && e.endTime == NumberOf(row.endTime)
              && e.correlationScore == (if row.correlationScore.VBytes? then 0.0 else NumberOf(row.correlationScore))
              && e.outroLength == (if row.outroLength.VNone? then 0.0 else NumberOf(row.outroLength))
  {
    if row.movieHash.VBytes? && Decode(row.movieHash.b).Some? {
      EncodeDecode(row.movieHash.b);
    }
  }

  /** One entry per row, in fetch order; otherwise the error of the first row that does not convert. */
  lemma {:induction false} EntriesPerRow(rows: seq<Row>)
    ensures Entries(rows).Ok? <==> forall i :: 0 <= i < |rows| ==> ToEntry(rows[i]).Ok?
    ensures Entries(rows).Ok? ==>
              |Entries(rows).value| == |rows|
              && forall i :: 0 <= i < |rows| ==> Entries(rows).value[i] == ToEntry(rows[i]).value
    ensures Entries(rows).Err? ==>
              exists i :: 0 <= i < |rows| && ToEntry(rows[i]) == Err(Entries(rows).error)
                          && forall j :: 0 <= j < i ==> ToEntry(rows[j]).Ok?
  {
    if rows != [] {
      var n := |rows| - 1;
      var front := rows[..n];
      EntriesPerRow(front);
      assert forall i :: 0 <= i < n ==> front[i] == rows[i];
      if Entries(front).Err? {
        var i :| 0 <= i < n && ToEntry(front[i]) == Err(Entries(front).error)
                 && forall j :: 0 <= j < i ==> ToEntry(front[j]).Ok?;
        assert ToEntry(rows[i]) == Err(Entries(rows).error);
      } else if ToEntry(rows[n]).Err? {
        assert ToEntry(rows[n]) == Err(Entries(rows).error);
      }
    }
  }

  /** A missing database gives False; otherwise the export succeeds exactly when every row converts,
      and then it is version 1 with one entry per row in fetch order. */
  lemma ExportOutcome(db: Database)
    ensures db.Missing? ==> Export(db) == Ok(None)
    ensures db.Present? ==> (Export(db).Ok? <==> forall i :: 0 <= i < |db.rows| ==> ToEntry(db.rows[i]).Ok?)
    ensures db.Present? && Export(db).Ok? ==>
              var out := Export(db).value.value;
              && Export(db).value.Some? && out.version == 1 && |out.entries| == |db.rows|
              && (forall i :: 0 <= i < |db.rows| ==> out.entries[i] == ToEntry(db.rows[i]).value)
              && out.byHash == Lookup(out.entries, ByHash) && out.byFile == Lookup(out.entries, ByFile)
  {
    if db.Present? {
      EntriesPerRow(db.rows);
    }
  }

  /** The keys of a lookup map are exactly the truthy keys of the entries. */
  lemma {:induction false} LookupKeys(es: seq<Entry>, ix: Index)
    ensures forall k :: k in Lookup(es, ix) <==> Truthy(k) && exists i :: 0 <= i < |es| && KeyOf(es[i], ix) == k
  {
    if es != [] {
      var n := |es| - 1;
      LookupKeys(es[..n], ix);
      assert forall i :: 0 <= i < n ==> es[..n][i] == es[i];
      forall k | Truthy(k) && exists i :: 0 <= i < |es| && KeyOf(es[i], ix) == k
        ensures k in Lookup(es, ix)
      {
        var i :| 0 <= i < |es| && KeyOf(es[i], ix) == k;
        if i < n {
          assert KeyOf(es[..n][i], ix) == k;
        }
      }
    }
  }

  /** Each key holds the entry of the last entry written under it. */
  lemma {:induction false} LookupLastWrite(es: seq<Entry>, ix: Index, i: nat)
    requires i < |es| && Truthy(KeyOf(es[i], ix))
    requires forall j :: i < j < |es| ==> KeyOf(es[j], ix) != KeyOf(es[i], ix)
    ensures KeyOf(es[i], ix) in Lookup(es, ix) && Lookup(es, ix)[KeyOf(es[i], ix)] == es[i]
  {
    var n := |es| - 1;
    if i < n {
      assert es[..n][i] == es[i];
      LookupLastWrite(es[..n], ix, i);
    }
  }

  /** With the rows fetched by descending id, each key holds the entry of the row with the lowest id
      among the rows filed under that key. */
  lemma LowestIdWins(rows: seq<Row>, es: seq<Entry>, ix: Index, i: nat)
    requires Entries(rows) == Ok(es) && i < |es| == |rows|
    requires forall a, b :: 0 <= a < b < |rows| ==> rows[a].id > rows[b].id
    requires Truthy(KeyOf(es[i], ix))
    requires forall j :: 0 <= j < |es| && KeyOf(es[j], ix) == KeyOf(es[i], ix) ==> rows[i].id <= rows[j].id
    ensures ToEntry(rows[i]) == Ok(es[i])
    ensures KeyOf(es[i], ix) in Lookup(es, ix) && Lookup(es, ix)[KeyOf(es[i], ix)] == es[i]
  {
    EntriesPerRow(rows);
    forall j | i < j < |es|
      ensures KeyOf(es[j], ix) != KeyOf(es[i], ix)
    {
      assert rows[i].id > rows[j].id;
    }
    LookupLastWrite(es, ix, i);
  }
}
