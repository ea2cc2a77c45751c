/** The result deduplicator of `singapore/dedup_results.py`.

    One pass over the CSV records: each record gets a key (its Google
    `data_id`, or else its title and coordinates), the first record seen for a
    key is kept, later ones are counted as duplicates, and records without a
    key are counted and dropped. */
module Dedup {
  import opened Whitespace

  /** One CSV record as `csv.DictReader` yields it: column name to cell text. */
  type Row = map<string, string>

  datatype Option<T> = None | Some(value: T)

  /** `row.get(column, "")`: a missing column reads as the empty string. */
  function Field(row: Row, column: string): string {
    if column in row then row[column] else ""
  }

  /** The stripped cells the key is built from. */
  function DataId(row: Row): string { Strip(Field(row, "data_id")) }
  function Title(row: Row): string { Strip(Field(row, "title")) }
  function Latitude(row: Row): string { Strip(Field(row, "latitude")) }
  function Longitude(row: Row): string { Strip(Field(row, "longitude")) }

  /** The deduplication key of a record: `did:<data_id>` when the stripped
      `data_id` is non-empty, otherwise `tloc:<title>|<lat>|<lon>` when all
      three stripped cells are non-empty, otherwise no key. The fallback key
      is the joined string, exactly as the source formats it. */
  function KeyOf(row: Row): Option<string> {
    if DataId(row) != "" then
      Some("did:" + DataId(row))
    else if Title(row) != "" && Latitude(row) != "" && Longitude(row) != "" then
      Some("tloc:" + Title(row) + "|" + Latitude(row) + "|" + Longitude(row))
    else
      None
  }

  // ---------------------------------------------------------------------------
  // Properties of the key

  /** A record has no key exactly when its `data_id` cell is blank (missing,
      empty or whitespace only) and at least one of title, latitude and
      longitude is blank too. */
  lemma NoKeyIff(row: Row)
    ensures KeyOf(row).None? <==>
      AllSpace(Field(row, "data_id")) &&
      (AllSpace(Field(row, "title")) || AllSpace(Field(row, "latitude")) || AllSpace(Field(row, "longitude")))
  {
    StripShape(Field(row, "data_id"));
    StripShape(Field(row, "title"));
    StripShape(Field(row, "latitude"));
    StripShape(Field(row, "longitude"));
  }

  /** A non-blank `data_id` decides the key, whatever the title and
      coordinates say. */
  lemma DataIdTakesPrecedence(row: Row, title: string, lat: string, lon: string)
    requires DataId(row) != ""
    ensures KeyOf(row["title" := title]["latitude" := lat]["longitude" := lon]) == Some("did:" + DataId(row))
  {
    var other := row["title" := title]["latitude" := lat]["longitude" := lon];
    assert Field(other, "data_id") == Field(row, "data_id");
  }

  /** A `did:` key never equals a `tloc:` key, so a record with a `data_id` is
      never a duplicate of one keyed by title and coordinates. */
  lemma KeyKindsDisjoint(r1: Row, r2: Row)
    requires KeyOf(r1).Some? && KeyOf(r1) == KeyOf(r2)
    ensures (DataId(r1) != "") == (DataId(r2) != "")
  {
    KeyTag(r1);
    KeyTag(r2);
  }

  /** The first character of a key tells which kind it is. */
  lemma KeyTag(row: Row)
    requires KeyOf(row).Some?
    ensures KeyOf(row).value[0] == if DataId(row) != "" then 'd' else 't'
  {
  }

  /** Two records keyed by `data_id` are duplicates exactly when their
      stripped `data_id` cells agree. */
  lemma DataIdKeyInjective(r1: Row, r2: Row)
    requires DataId(r1) != "" && DataId(r2) != ""
    ensures KeyOf(r1) == KeyOf(r2) <==> DataId(r1) == DataId(r2)
  {
    if KeyOf(r1) == KeyOf(r2) {
      assert DataId(r1) == KeyOf(r1).value[4..];
      assert DataId(r2) == KeyOf(r2).value[4..];
    }
  }

  /** In `a + "|" + b` with no `|` in `b`, the last `|` is the one before `b`. */
  lemma LastBar(a: string, b: string)
    requires '|' !in b
    ensures var s := a + "|" + b;
      s[|s| - 1 - |b|] == '|' && forall i :: |s| - |b| <= i < |s| ==> s[i] != '|'
  {
    var s := a + "|" + b;
    forall i | |s| - |b| <= i < |s| ensures s[i] != '|' {
      assert s[i] == b[i - (|s| - |b|)];
    }
  }

  /** `a + "|" + b` determines `a` and `b` when `b` contains no `|`. */
  lemma SplitAtLastBar(a1: string, b1: string, a2: string, b2: string)
    requires a1 + "|" + b1 == a2 + "|" + b2
    requires '|' !in b1 && '|' !in b2
    ensures a1 == a2 && b1 == b2
  {
    var s := a1 + "|" + b1;
    LastBar(a1, b1);
    LastBar(a2, b2);
    assert |b1| == |b2|;
    assert b1 == s[|s| - |b1|..];
    assert a1 == s[..|a1|];
  }

  /** The fallback key identifies title, latitude and longitude as long as
      the two coordinate cells contain no `|` (a title may). */
  lemma FallbackKeyInjective(r1: Row, r2: Row)
    requires DataId(r1) == "" && DataId(r2) == ""
    requires KeyOf(r1).Some? && KeyOf(r2).Some?
    requires '|' !in Latitude(r1) && '|' !in Longitude(r1)
    requires '|' !in Latitude(r2) && '|' !in Longitude(r2)
    ensures KeyOf(r1) == KeyOf(r2) <==>
      Title(r1) == Title(r2) && Latitude(r1) == Latitude(r2) && Longitude(r1) == Longitude(r2)
  {
    if KeyOf(r1) == KeyOf(r2) {
      var p1 := "tloc:" + Title(r1) + "|" + Latitude(r1);
      var p2 := "tloc:" + Title(r2) + "|" + Latitude(r2);
      assert p1 + "|" + Longitude(r1) == p2 + "|" + Longitude(r2);
      SplitAtLastBar(p1, Longitude(r1), p2, Longitude(r2));
      SplitAtLastBar("tloc:" + Title(r1), Latitude(r1), "tloc:" + Title(r2), Latitude(r2));
      assert Title(r1) == ("tloc:" + Title(r1))[5..];
      assert Title(r2) == ("tloc:" + Title(r2))[5..];
    }
  }

  /** Without that condition the joined key is ambiguous: these two
      different records get the same key and the second is dropped as a
      duplicate of the first. */
  lemma FallbackKeyAmbiguous()
    ensures var r1: Row := map["title" := "A|B", "latitude" := "1.3", "longitude" := "103.8"];
            var r2: Row := map["title" := "A", "latitude" := "B|1.3", "longitude" := "103.8"];
            r1 != r2 && KeyOf(r1).Some? && KeyOf(r1) == KeyOf(r2)
  {
    var r1: Row := map["title" := "A|B", "latitude" := "1.3", "longitude" := "103.8"];
    var r2: Row := map["title" := "A", "latitude" := "B|1.3", "longitude" := "103.8"];
    assert r1["title"] != r2["title"];
    StripUnpadded("A|B");
    StripUnpadded("A");
    StripUnpadded("1.3");
    StripUnpadded("B|1.3");
    StripUnpadded("103.8");
    assert Field(r1, "data_id") == "" && Field(r2, "data_id") == "";
    assert Title(r1) == "A|B" && Latitude(r1) == "1.3" && Longitude(r1) == "103.8";
    assert Title(r2) == "A" && Latitude(r2) == "B|1.3" && Longitude(r2) == "103.8";
    assert "tloc:" + "A|B" + "|" + "1.3" + "|" + "103.8" == "tloc:" + "A" + "|" + "B|1.3" + "|" + "103.8";
  }

  // ---------------------------------------------------------------------------
  // The filter as a function of the rows read so far. It is stated for any
  // key function `key`; the deduplicator uses `KeyOf`.

  /** A way of deriving a record's key. */
  type KeyFn = Row -> Option<string>

  /** The loop's variables: the `seen` key set, the four counters and the
      rows kept for output. */
  datatype State = State(seen: set<string>, total: nat, kept: nat, dup: nat, noKey: nat, keptRows: seq<Row>)

  const Start := State({}, 0, 0, 0, 0, [])

  /** One iteration of the loop on `row`. */
  function Step(st: State, row: Row, statsOnly: bool, key: KeyFn): State {
    var st := st.(total := st.total + 1);
    match key(row)
    case None => st.(noKey := st.noKey + 1)
    case Some(k) =>
      if k in st.seen then st.(dup := st.dup + 1)
      else st.(seen := st.seen + {k}, kept := st.kept + 1,
               keptRows := if statsOnly then st.keptRows else st.keptRows + [row])
  }

  /** The state after the loop has read all of `rows`. */
  function Run(rows: seq<Row>, statsOnly: bool, key: KeyFn): State
    decreases |rows|
  {
    if rows == [] then Start
    else Step(Run(rows[..|rows| - 1], statsOnly, key), rows[|rows| - 1], statsOnly, key)
  }

  // ---------------------------------------------------------------------------
  // Reference definitions, independent of the `seen` set

  /** The keys that occur among `rows`. */
  function KeySet(rows: seq<Row>, key: KeyFn): set<string>
    decreases |rows|
  {
    if rows == [] then {}
    else
      var last := match key(rows[|rows| - 1]) case Some(k) => {k} case None => {};
      KeySet(rows[..|rows| - 1], key) + last
  }

  /** Row `i` has a key that no earlier row has. */
  ghost predicate IsFirst(rows: seq<Row>, i: int, key: KeyFn)
    requires 0 <= i < |rows|
  {
    key(rows[i]).Some? && forall j :: 0 <= j < i ==> key(rows[j]) != key(rows[i])
  }

  /** The indices of the first occurrences, in increasing order. */
  ghost function FirstIndices(rows: seq<Row>, key: KeyFn): seq<int>
    decreases |rows|
  {
    if rows == [] then []
    else
      var last := if IsFirst(rows, |rows| - 1, key) then [|rows| - 1] else [];
      FirstIndices(rows[..|rows| - 1], key) + last
  }

  /** How many rows have no key. */
  function NoKeyCount(rows: seq<Row>, key: KeyFn): nat
    decreases |rows|
  {
    if rows == [] then 0
    else NoKeyCount(rows[..|rows| - 1], key) + (if key(rows[|rows| - 1]).None? then 1 else 0)
  }

  /** How many rows repeat a key that an earlier row has. */
  ghost function RepeatCount(rows: seq<Row>, key: KeyFn): nat
    decreases |rows|
  {
    if rows == [] then 0
    else
      var last := if key(rows[|rows| - 1]).Some? && !IsFirst(rows, |rows| - 1, key) then 1 else 0;
      RepeatCount(rows[..|rows| - 1], key) + last
  }

  /** Every row has a key and no two rows share one. */
  ghost predicate DistinctKeys(rows: seq<Row>, key: KeyFn) {
    (forall i :: 0 <= i < |rows| ==> key(rows[i]).Some?) &&
    (forall i, j :: 0 <= i < j < |rows| ==> key(rows[i]) != key(rows[j]))
  }

  // ---------------------------------------------------------------------------
  // Properties of the filter

  lemma {:induction false} KeySetMembers(rows: seq<Row>, key: KeyFn, k: string)
    ensures k in KeySet(rows, key) <==> exists i :: 0 <= i < |rows| && key(rows[i]) == Some(k)
    decreases |rows|
  {
    if rows != [] {
      var init := rows[..|rows| - 1];
      KeySetMembers(init, key, k);
      if k in KeySet(init, key) {
        var i :| 0 <= i < |init| && key(init[i]) == Some(k);
        assert rows[i] == init[i];
      }
      if i :| 0 <= i < |rows| && key(rows[i]) == Some(k) {
        if i < |init| {
          assert init[i] == rows[i];
        }
      }
    }
  }

  /** The last row is a first occurrence exactly when its key is not among
      the keys of the rows before it. */
  lemma IsFirstLast(rows: seq<Row>, key: KeyFn)
    requires rows != []
    ensures IsFirst(rows, |rows| - 1, key) <==>
      key(rows[|rows| - 1]).Some? && key(rows[|rows| - 1]).value !in KeySet(rows[..|rows| - 1], key)
  {
    var init := rows[..|rows| - 1];
    var last := key(rows[|rows| - 1]);
    if last.Some? {
      KeySetMembers(init, key, last.value);
      if last.value in KeySet(init, key) {
        var i :| 0 <= i < |init| && key(init[i]) == last;
        assert rows[i] == init[i];
      } else {
        forall j | 0 <= j < |init| ensures key(rows[j]) != last {
          assert rows[j] == init[j];
        }
      }
    }
  }

  /** Every row read lands in exactly one of the three buckets. */
  lemma {:induction false} CountersAddUp(rows: seq<Row>, statsOnly: bool, key: KeyFn)
    ensures Run(rows, statsOnly, key).total == |rows|
    ensures Run(rows, statsOnly, key).total ==
            Run(rows, statsOnly, key).kept + Run(rows, statsOnly, key).dup + Run(rows, statsOnly, key).noKey
    decreases |rows|
  {
    if rows != [] {
      CountersAddUp(rows[..|rows| - 1], statsOnly, key);
    }
  }

  /** After the loop `seen` holds exactly the keys occurring in the input. */
  lemma {:induction false} SeenIsInputKeys(rows: seq<Row>, statsOnly: bool, key: KeyFn)
    ensures Run(rows, statsOnly, key).seen == KeySet(rows, key)
    decreases |rows|
  {
    if rows != [] {
      SeenIsInputKeys(rows[..|rows| - 1], statsOnly, key);
    }
  }

  /** Each kept row adds one new key: `rows_kept == len(seen)`. */
  lemma {:induction false} KeptIsSeenSize(rows: seq<Row>, statsOnly: bool, key: KeyFn)
    ensures Run(rows, statsOnly, key).kept == |Run(rows, statsOnly, key).seen|
    decreases |rows|
  {
    if rows != [] {
      KeptIsSeenSize(rows[..|rows| - 1], statsOnly, key);
    }
  }

  /** Apart from `keptRows` the stats-only run is the normal run, and it
      keeps no rows. */
  lemma {:induction false} StatsOnlySameCounters(rows: seq<Row>, key: KeyFn)
    ensures Run(rows, true, key) == Run(rows, false, key).(keptRows := [])
    decreases |rows|
  {
    if rows != [] {
      StatsOnlySameCounters(rows[..|rows| - 1], key);
    }
  }

  /** The counters agree with the reference counts: `rows_no_key` counts the
      keyless rows, `rows_dup` the later occurrences of a key and `rows_kept`
      the first occurrences. */
  lemma {:induction false} CountersCharacterised(rows: seq<Row>, statsOnly: bool, key: KeyFn)
    ensures Run(rows, statsOnly, key).noKey == NoKeyCount(rows, key)
    ensures Run(rows, statsOnly, key).dup == RepeatCount(rows, key)
    ensures Run(rows, statsOnly, key).kept == |FirstIndices(rows, key)|
    decreases |rows|
  {
    if rows != [] {
      var init := rows[..|rows| - 1];
      CountersCharacterised(init, statsOnly, key);
      SeenIsInputKeys(init, statsOnly, key);
      IsFirstLast(rows, key);
    }
  }

  /** Whether an earlier row is a first occurrence does not depend on the
      rows after it. */
  lemma IsFirstPrefix(rows: seq<Row>, n: int, i: int, key: KeyFn)
    requires 0 <= i < n <= |rows|
    ensures IsFirst(rows[..n], i, key) == IsFirst(rows, i, key)
  {
    assert forall j :: 0 <= j <= i ==> rows[..n][j] == rows[j];
  }

  /** `FirstIndices` lists, in increasing order, exactly the first
      occurrences. */
  lemma {:induction false} FirstIndicesExact(rows: seq<Row>, key: KeyFn)
    ensures forall k :: 0 <= k < |FirstIndices(rows, key)| ==> 0 <= FirstIndices(rows, key)[k] < |rows|
    ensures forall k, l :: 0 <= k < l < |FirstIndices(rows, key)| ==>
      FirstIndices(rows, key)[k] < FirstIndices(rows, key)[l]
    ensures forall i :: 0 <= i < |rows| ==> (i in FirstIndices(rows, key) <==> IsFirst(rows, i, key))
    decreases |rows|
  {
    if rows != [] {
      var init := rows[..|rows| - 1];
      FirstIndicesExact(init, key);
      forall i | 0 <= i < |init| ensures IsFirst(init, i, key) == IsFirst(rows, i, key) {
        IsFirstPrefix(rows, |rows| - 1, i, key);
      }
    }
  }

  /** The rows kept are the input rows at the first-occurrence indices, in
      input order and unchanged: an order-preserving subsequence. */
  lemma {:induction false} KeptAreFirstOccurrences(rows: seq<Row>, key: KeyFn)
    ensures |Run(rows, false, key).keptRows| == |FirstIndices(rows, key)|
    ensures forall k :: 0 <= k < |FirstIndices(rows, key)| ==>
      0 <= FirstIndices(rows, key)[k] < |rows| &&
      Run(rows, false, key).keptRows[k] == rows[FirstIndices(rows, key)[k]]
    decreases |rows|
  {
    if rows != [] {
      var init := rows[..|rows| - 1];
      KeptAreFirstOccurrences(init, key);
      SeenIsInputKeys(init, false, key);
      IsFirstLast(rows, key);
      var before, after := FirstIndices(init, key), FirstIndices(rows, key);
      var kept0, kept1 := Run(init, false, key).keptRows, Run(rows, false, key).keptRows;
      assert |after| == |kept1|;
      forall k | 0 <= k < |after|
        ensures 0 <= after[k] < |rows| && kept1[k] == rows[after[k]]
      {
        if k < |before| {
          assert after[k] == before[k] && kept1[k] == kept0[k];
          assert rows[before[k]] == init[before[k]];
        }
      }
    }
  }

  /** The kept rows all have keys and no two share one; their keys are the
      final `seen` set. */
  lemma {:induction false} KeptKeysDistinct(rows: seq<Row>, key: KeyFn)
    ensures DistinctKeys(Run(rows, false, key).keptRows, key)
    ensures KeySet(Run(rows, false, key).keptRows, key) == Run(rows, false, key).seen
    decreases |rows|
  {
    if rows != [] {
      var init := rows[..|rows| - 1];
      KeptKeysDistinct(init, key);
      var before := Run(init, false, key).keptRows;
      var after := Run(rows, false, key).keptRows;
      var last := key(rows[|rows| - 1]);
      if last.Some? && last.value !in Run(init, false, key).seen {
        assert after == before + [rows[|rows| - 1]];
        assert after[..|after| - 1] == before;
        KeySetMembers(before, key, last.value);
        forall i | 0 <= i < |before| ensures key(before[i]) != last {
        }
      }
    }
  }

  /** Rows with distinct keys pass the filter untouched. */
  lemma {:induction false} DistinctRowsAllKept(rows: seq<Row>, key: KeyFn)
    requires DistinctKeys(rows, key)
    ensures Run(rows, false, key) == State(KeySet(rows, key), |rows|, |rows|, 0, 0, rows)
    decreases |rows|
  {
    if rows != [] {
      var init := rows[..|rows| - 1];
      assert DistinctKeys(init, key);
      DistinctRowsAllKept(init, key);
      var last := key(rows[|rows| - 1]);
      KeySetMembers(init, key, last.value);
      assert last.value !in KeySet(init, key);
      assert init + [rows[|rows| - 1]] == rows;
    }
  }

  /** Deduplicating the output again changes nothing: every row is kept,
      with no duplicates and no keyless rows. */
  lemma DedupIdempotent(rows: seq<Row>, key: KeyFn)
    ensures var out := Run(rows, false, key).keptRows;
            Run(out, false, key) == State(Run(rows, false, key).seen, |out|, |out|, 0, 0, out)
  {
    KeptKeysDistinct(rows, key);
    DistinctRowsAllKept(Run(rows, false, key).keptRows, key);
  }

  // ---------------------------------------------------------------------------
  // The deduplicator

  datatype DedupError = MissingHeader

  datatype Result<T> = Ok(value: T) | Err(error: DedupError)

  /** What `dedup` produces: the four counters it reports and the rows it
      writes. */
  datatype Report = Report(rowsTotal: nat, rowsKept: nat, rowsDup: nat, rowsNoKey: nat, keptRows: seq<Row>)

  function ReportOf(st: State): Report {
    Report(st.total, st.kept, st.dup, st.noKey, st.keptRows)
  }

  /** `dedup` on an already parsed file: `header` is the reader's field names
      (empty when the file has none) and `rows` its records. */
  method Deduplicate(header: seq<string>, rows: seq<Row>, statsOnly: bool) returns (r: Result<Report>)
    ensures r.Err? <==> header == []
    ensures r.Ok? ==> r.value == ReportOf(Run(rows, statsOnly, KeyOf))
    ensures r.Ok? ==> r.value.rowsTotal == |rows| == r.value.rowsKept + r.value.rowsDup + r.value.rowsNoKey
  {
    if header == [] {
      return Err(MissingHeader);
    }
    var seen: set<string> := {};
    var rowsTotal, rowsKept, rowsDup, rowsNoKey := 0, 0, 0, 0;
    var keptRows: seq<Row> := [];
    for i := 0 to |rows|
      invariant State(seen, rowsTotal, rowsKept, rowsDup, rowsNoKey, keptRows) == Run(rows[..i], statsOnly, KeyOf)
    {
      assert rows[..i + 1][..i] == rows[..i];
      var row := rows[i];
      rowsTotal := rowsTotal + 1;
      var key := KeyOf(row);
      if key.None? {
        rowsNoKey := rowsNoKey + 1;
        continue;
      }
      if key.value in seen {
        rowsDup := rowsDup + 1;
        continue;
      }
      seen := seen + {key.value};
      rowsKept := rowsKept + 1;
      if !statsOnly {
        keptRows := keptRows + [row];
      }
    }
    assert rows[..|rows|] == rows;
    CountersAddUp(rows, statsOnly, KeyOf);
    return Ok(ReportOf(State(seen, rowsTotal, rowsKept, rowsDup, rowsNoKey, keptRows)));
  }
}
