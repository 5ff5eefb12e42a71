/** The SFTP activity reconciliation: rows are read page by page, merged, sent in one batch, and
    deleted in chunks. */
module SftpCron {
  import opened Collections
  import opened Sums

  /** The "files" entry of a row's metadata. */
  datatype FilesValue = Absent | NotASlice | Listed(files: seq<string>)

  /** A row; the timestamp is UTC, in seconds. */
  datatype Activity = Activity(id: nat, user: string, server: string, event: string, ip: string, timestamp: int, files: FilesValue)

  datatype Key = Key(user: string, server: string, ip: string, event: string, minute: int)

  /** A merged event, as sent. */
  datatype Record = Record(user: string, server: string, event: string, ip: string, timestamp: int, files: seq<string>)

  function Minute(timestamp: int): int {
    timestamp / 60
  }

  function KeyOf(a: Activity): Key {
    Key(a.user, a.server, a.ip, a.event, Minute(a.timestamp))
  }

  function KeyOfRecord(r: Record): Key {
    Key(r.user, r.server, r.ip, r.event, Minute(r.timestamp))
  }

  function FilesOf(a: Activity): seq<string> {
    if a.files.Listed? then a.files.files else []
  }

  // ------------------------------------------------------------------ what a batch should be

  function KeysOf(rows: seq<Activity>): set<Key> {
    if rows == [] then {} else KeysOf(rows[..|rows| - 1]) + {KeyOf(rows[|rows| - 1])}
  }

  function IdsOf(rows: seq<Activity>): seq<nat> {
    seq(|rows|, i requires 0 <= i < |rows| => rows[i].id)
  }

  function AllFiles(rows: seq<Activity>): seq<string> {
    if rows == [] then [] else AllFiles(rows[..|rows| - 1]) + FilesOf(rows[|rows| - 1])
  }

  /** The rows with key `k`, in order. */
  function Group(rows: seq<Activity>, k: Key): seq<Activity> {
    if rows == [] then [] else
      var init, last := rows[..|rows| - 1], rows[|rows| - 1];
      if KeyOf(last) == k then Group(init, k) + [last] else Group(init, k)
  }

  /** The rows with a key in `keys`, in order. */
  function OfKeys(rows: seq<Activity>, keys: set<Key>): seq<Activity> {
    if rows == [] then [] else
      var init, last := rows[..|rows| - 1], rows[|rows| - 1];
      if KeyOf(last) in keys then OfKeys(init, keys) + [last] else OfKeys(init, keys)
  }

  function Earliest(rows: seq<Activity>): int
    requires rows != []
  {
    var last := rows[|rows| - 1].timestamp;
    if |rows| == 1 then last else
      var before := Earliest(rows[..|rows| - 1]);
      if last < before then last else before
  }

  /** The record for the rows `g` of one key: the earliest timestamp, and the files in the order of
      the rows. */
  function Merged(k: Key, g: seq<Activity>): Record
    requires g != []
  {
    Record(k.user, k.server, k.event, k.ip, Earliest(g), AllFiles(g))
  }

  lemma {:induction false} GroupMember(rows: seq<Activity>, k: Key)
    ensures forall a :: a in Group(rows, k) <==> a in rows && KeyOf(a) == k
    ensures Group(rows, k) != [] <==> k in KeysOf(rows)
  {
    if rows != [] {
      var init, last := rows[..|rows| - 1], rows[|rows| - 1];
      GroupMember(init, k);
      assert rows == init + [last];
      KeysAppend(init, last);
    }
  }

  function RecordOf(rows: seq<Activity>, k: Key): Record
    requires k in KeysOf(rows)
  {
    GroupMember(rows, k);
    Merged(k, Group(rows, k))
  }

  /** One record for each key. */
  ghost function Merge(rows: seq<Activity>): map<Key, Record> {
    map k | k in KeysOf(rows) :: RecordOf(rows, k)
  }

  predicate Accepts(max: int, taken: seq<Activity>, a: Activity) {
    KeyOf(a) in KeysOf(taken) || |KeysOf(taken)| < max
  }

  /** The rows that make it into the batch. */
  function Taken(max: int, rows: seq<Activity>): seq<Activity> {
    if rows == [] then [] else
      var taken, last := Taken(max, rows[..|rows| - 1]), rows[|rows| - 1];
      if Accepts(max, taken, last) then taken + [last] else taken
  }

  lemma GroupAppend(rows: seq<Activity>, a: Activity, k: Key)
    ensures Group(rows + [a], k) == if KeyOf(a) == k then Group(rows, k) + [a] else Group(rows, k)
  {
    assert (rows + [a])[..|rows|] == rows;
  }

  lemma TakenAppend(max: int, rows: seq<Activity>, a: Activity)
    ensures var taken := Taken(max, rows);
      Taken(max, rows + [a]) == if Accepts(max, taken, a) then taken + [a] else taken
  {
    assert (rows + [a])[..|rows|] == rows;
  }

  lemma KeysAppend(rows: seq<Activity>, a: Activity)
    ensures KeysOf(rows + [a]) == KeysOf(rows) + {KeyOf(a)}
  {
    assert (rows + [a])[..|rows|] == rows;
  }

  /** `taken` are the rows of a bounded set of keys, with all their rows; something is left out only
      when the bound is reached. */
  ghost predicate Fair(max: int, rows: seq<Activity>, taken: seq<Activity>) {
    && |KeysOf(taken)| <= (if max < 0 then 0 else max)
    && taken == OfKeys(rows, KeysOf(taken))
    && (taken != rows ==> |KeysOf(taken)| >= max)
  }

  lemma OfKeysAppend(rows: seq<Activity>, a: Activity, keys: set<Key>)
    ensures OfKeys(rows + [a], keys) == if KeyOf(a) in keys then OfKeys(rows, keys) + [a] else OfKeys(rows, keys)
  {
    assert (rows + [a])[..|rows|] == rows;
  }

  lemma FairAppend(max: int, rows: seq<Activity>, taken: seq<Activity>, a: Activity)
    requires Fair(max, rows, taken)
    ensures Fair(max, rows + [a], if Accepts(max, taken, a) then taken + [a] else taken)
  {
    var keys := KeysOf(taken);
    KeysAppend(taken, a);
    OfKeysAppend(rows, a, keys);
    OfKeysAppend(rows, a, keys + {KeyOf(a)});
    if KeyOf(a) in keys {
      assert keys + {KeyOf(a)} == keys;
    } else if Accepts(max, taken, a) {
      AllOfKeys(rows, keys + {KeyOf(a)});
    }
  }

  /** A row is left out if and only if its key is not among the keys of the batch; and then the
      batch is full. In particular a key is taken with all its rows or with none. */
  lemma {:induction false} TakenMeaning(max: int, rows: seq<Activity>)
    ensures Fair(max, rows, Taken(max, rows))
    decreases |rows|
  {
    if rows != [] {
      var init, last := rows[..|rows| - 1], rows[|rows| - 1];
      assert init + [last] == rows;
      TakenMeaning(max, init);
      FairAppend(max, init, Taken(max, init), last);
    }
  }

  lemma {:induction false} AllOfKeys(rows: seq<Activity>, keys: set<Key>)
    requires KeysOf(rows) <= keys
    ensures OfKeys(rows, keys) == rows
  {
    if rows != [] {
      var init, last := rows[..|rows| - 1], rows[|rows| - 1];
      assert rows == init + [last];
      KeysAppend(init, last);
      AllOfKeys(init, keys);
    }
  }

  lemma {:induction false} SameMinute(rows: seq<Activity>, minute: int)
    requires rows != [] && forall a :: a in rows ==> Minute(a.timestamp) == minute
    ensures Minute(Earliest(rows)) == minute
    ensures forall a :: a in rows ==> Earliest(rows) <= a.timestamp
    ensures exists a :: a in rows && a.timestamp == Earliest(rows)
  {
    if |rows| > 1 {
      var init, last := rows[..|rows| - 1], rows[|rows| - 1];
      SameMinute(init, minute);
      assert rows == init + [last];
    } else {
      assert rows[0] in rows;
    }
  }

  /** Every merged record maps to its own key, and carries the earliest timestamp of its group. */
  lemma RecordsKeepTheirKey(rows: seq<Activity>, k: Key)
    requires k in KeysOf(rows)
    ensures KeyOfRecord(Merge(rows)[k]) == k
    ensures forall a :: a in rows && KeyOf(a) == k ==> Merge(rows)[k].timestamp <= a.timestamp
    ensures exists a :: a in rows && KeyOf(a) == k && a.timestamp == Merge(rows)[k].timestamp
  {
    GroupMember(rows, k);
    SameMinute(Group(rows, k), k.minute);
  }

  /** What Push does with the record it found or created. */
  function Extended(r: Record, a: Activity): Record {
    r.(timestamp := if a.timestamp < r.timestamp then a.timestamp else r.timestamp, files := r.files + FilesOf(a))
  }

  function Created(a: Activity): Record {
    Record(a.user, a.server, a.event, a.ip, a.timestamp, [])
  }

  lemma MergedAppend(k: Key, g: seq<Activity>, a: Activity)
    requires KeyOf(a) == k
    ensures Merged(k, g + [a]) == Extended(if g == [] then Created(a) else Merged(k, g), a)
  {
    var h := g + [a];
    assert h[..|h| - 1] == g && h[|h| - 1] == a;
    assert AllFiles(h) == AllFiles(g) + FilesOf(a);
    assert Earliest(h) == if g != [] && Earliest(g) <= a.timestamp then Earliest(g) else a.timestamp;
    var r := if g == [] then Created(a) else Merged(k, g);
    assert r.files == AllFiles(g);
    assert Merged(k, h).files == Extended(r, a).files;
    assert Merged(k, h).timestamp == Extended(r, a).timestamp;
    assert Merged(k, h).user == r.user && r.server == k.server && r.event == k.event && r.ip == k.ip;
  }

  /** What Push does to the map is what one more row does to the merge. */
  lemma MergeAppend(rows: seq<Activity>, a: Activity)
    ensures var k, m := KeyOf(a), Merge(rows);
      Merge(rows + [a]) == m[k := Extended(if k in m then m[k] else Created(a), a)]
  {
    var k, m, m' := KeyOf(a), Merge(rows), Merge(rows + [a]);
    KeysAppend(rows, a);
    var r := Extended(if k in m then m[k] else Created(a), a);
    forall j | j in m' ensures m'[j] == m[k := r][j] {
      RecordAppend(rows, a, j);
    }
    assert m'.Keys == m[k := r].Keys;
  }

  lemma RecordAppend(rows: seq<Activity>, a: Activity, j: Key)
    requires j in KeysOf(rows) || j == KeyOf(a)
    ensures j in KeysOf(rows + [a])
    ensures j != KeyOf(a) ==> RecordOf(rows + [a], j) == RecordOf(rows, j)
    ensures j == KeyOf(a) ==> RecordOf(rows + [a], j) == Extended(if j in KeysOf(rows) then RecordOf(rows, j) else Created(a), a)
  {
    KeysAppend(rows, a);
    GroupAppend(rows, a, j);
    GroupMember(rows, j);
    if j == KeyOf(a) {
      MergedAppend(j, Group(rows, j), a);
    }
  }

  lemma KeysOfMerge(rows: seq<Activity>)
    ensures Merge(rows).Keys == KeysOf(rows) && |Merge(rows)| == |KeysOf(rows)|
  {
  }

  lemma IdsAppend(rows: seq<Activity>, a: Activity)
    ensures IdsOf(rows + [a]) == IdsOf(rows) + [a.id]
  {
  }

  // ------------------------------------------------------------------ no file is lost or doubled

  ghost function FileCounts(m: map<Key, Record>, f: string): map<Key, nat> {
    map k | k in m :: multiset(m[k].files)[f]
  }

  lemma CountConcat(a: seq<string>, b: seq<string>, f: string)
    ensures multiset(a + b)[f] == multiset(a)[f] + multiset(b)[f]
  {
  }

  lemma FileCountsPut(m: map<Key, Record>, k: Key, r: Record, f: string)
    ensures Sum(FileCounts(m[k := r], f)) ==
      Sum(FileCounts(m, f)) + multiset(r.files)[f] - if k in m then multiset(m[k].files)[f] else 0
  {
    assert FileCounts(m[k := r], f) == FileCounts(m, f)[k := multiset(r.files)[f]];
    SumPut(FileCounts(m, f), k, multiset(r.files)[f]);
  }

  lemma PushedCounts(m: map<Key, Record>, a: Activity, f: string)
    ensures var k := KeyOf(a);
      Sum(FileCounts(m[k := Extended(if k in m then m[k] else Created(a), a)], f)) ==
        Sum(FileCounts(m, f)) + multiset(FilesOf(a))[f]
  {
    var k := KeyOf(a);
    var r := if k in m then m[k] else Created(a);
    FileCountsPut(m, k, Extended(r, a), f);
    CountConcat(r.files, FilesOf(a), f);
  }

  /** However the rows are grouped, each file is in the merged records as often as in the rows. */
  lemma {:induction false} MergeKeepsFiles(rows: seq<Activity>, f: string)
    ensures Sum(FileCounts(Merge(rows), f)) == multiset(AllFiles(rows))[f]
  {
    if rows == [] {
      assert FileCounts(Merge(rows), f) == map[];
    } else {
      var init, last := rows[..|rows| - 1], rows[|rows| - 1];
      assert rows == init + [last];
      MergeKeepsFiles(init, f);
      MergeAppend(init, last);
      PushedCounts(Merge(init), last, f);
      CountConcat(AllFiles(init), FilesOf(last), f);
    }
  }

  /** `batch` lists the records of `m`, each once, in some order. */
  ghost predicate Enumerates(batch: seq<Record>, keys: seq<Key>, m: map<Key, Record>) {
    && |batch| == |keys| && Distinct(keys) && (forall k :: k in keys <==> k in m)
    && forall i :: 0 <= i < |keys| ==> batch[i] == m[keys[i]]
  }

  function BatchFiles(batch: seq<Record>): seq<string> {
    if batch == [] then [] else BatchFiles(batch[..|batch| - 1]) + batch[|batch| - 1].files
  }

  lemma EnumeratesInit(batch: seq<Record>, keys: seq<Key>, m: map<Key, Record>)
    requires Enumerates(batch, keys, m) && batch != []
    ensures var n := |batch| - 1;
      keys[n] in m && batch[n] == m[keys[n]] && Enumerates(batch[..n], keys[..n], m - {keys[n]})
  {
    var n := |batch| - 1;
    assert keys[n] in keys;
    assert forall k :: k in keys[..n] <==> k in keys && k != keys[n] by {
      assert keys == keys[..n] + [keys[n]];
    }
  }

  lemma EnumeratesMore(batch: seq<Record>, keys: seq<Key>, m: map<Key, Record>, rest: set<Key>, k: Key)
    requires Enumerates(batch, keys, m - rest) && k in rest && k in m
    ensures Enumerates(batch + [m[k]], keys + [k], m - (rest - {k}))
  {
    assert k !in keys;
  }

  lemma {:induction false} EnumeratedFiles(batch: seq<Record>, keys: seq<Key>, m: map<Key, Record>, f: string)
    requires Enumerates(batch, keys, m)
    ensures multiset(BatchFiles(batch))[f] == Sum(FileCounts(m, f))
    decreases |batch|
  {
    if batch == [] {
      assert forall k :: k in m ==> k in keys;
      assert FileCounts(m, f) == map[];
    } else {
      var n := |batch| - 1;
      var k := keys[n];
      EnumeratesInit(batch, keys, m);
      EnumeratedFiles(batch[..n], keys[..n], m - {k}, f);
      CountConcat(BatchFiles(batch[..n]), batch[n].files, f);
      assert FileCounts(m, f) - {k} == FileCounts(m - {k}, f);
      SumRemove(FileCounts(m, f), k);
    }
  }

  /** `batch` is what the panel should get for `rows`. */
  ghost predicate Delivers(batch: seq<Record>, rows: seq<Activity>) {
    exists keys :: Enumerates(batch, keys, Merge(rows))
  }

  /** The multiset of files sent is the multiset of files of the rows. */
  lemma FilesDelivered(batch: seq<Record>, rows: seq<Activity>)
    requires Delivers(batch, rows)
    ensures multiset(BatchFiles(batch)) == multiset(AllFiles(rows))
  {
    var keys :| Enumerates(batch, keys, Merge(rows));
    forall f ensures multiset(BatchFiles(batch))[f] == multiset(AllFiles(rows))[f] {
      EnumeratedFiles(batch, keys, Merge(rows), f);
      MergeKeepsFiles(rows, f);
    }
  }

  // ------------------------------------------------------------------ which rows share a record

  /** The timestamp is in the minute that begins `60 * minute` seconds after the epoch. */
  predicate Within(minute: int, timestamp: int) {
    60 * minute <= timestamp < 60 * minute + 60
  }

  /** Two rows of the same user, server, address and event in the same minute. */
  ghost predicate Together(a: Activity, b: Activity) {
    && a.user == b.user && a.server == b.server && a.ip == b.ip && a.event == b.event
    && exists m :: Within(m, a.timestamp) && Within(m, b.timestamp)
  }

  /** The record is of the row's user, server, address and event, and of its minute. */
  ghost predicate BelongsTo(r: Record, a: Activity) {
    && r.user == a.user && r.server == a.server && r.ip == a.ip && r.event == a.event
    && exists m :: Within(m, r.timestamp) && Within(m, a.timestamp)
  }

  /** The rows that share a record with `a`, in order. */
  ghost function TogetherWith(rows: seq<Activity>, a: Activity): seq<Activity> {
    if rows == [] then [] else
      (if Together(rows[0], a) then [rows[0]] else []) + TogetherWith(rows[1..], a)
  }

  /** The files the rows list, in order; a row without a list of files lists none. */
  ghost function ListedIn(rows: seq<Activity>): seq<string> {
    if rows == [] then [] else
      match rows[0].files
      case Listed(files) => files + ListedIn(rows[1..])
      case _ => ListedIn(rows[1..])
  }

  lemma OneMinute(s: int, t: int)
    ensures (exists m :: Within(m, s) && Within(m, t)) <==> Minute(s) == Minute(t)
  {
    assert Within(Minute(s), s) && Within(Minute(t), t);
    forall m | Within(m, s) && Within(m, t) ensures m == Minute(s) == Minute(t) {
    }
  }

  lemma TogetherIsOneKey(a: Activity, b: Activity)
    ensures Together(a, b) <==> KeyOf(a) == KeyOf(b)
  {
    OneMinute(a.timestamp, b.timestamp);
  }

  lemma RecordOfKey(r: Record, a: Activity)
    ensures BelongsTo(r, a) <==> KeyOfRecord(r) == KeyOf(a)
  {
    OneMinute(r.timestamp, a.timestamp);
  }

  lemma {:induction false} GroupFirst(rows: seq<Activity>, k: Key)
    requires rows != []
    ensures Group(rows, k) == (if KeyOf(rows[0]) == k then [rows[0]] else []) + Group(rows[1..], k)
    decreases |rows|
  {
    if |rows| > 1 {
      var init := rows[..|rows| - 1];
      GroupFirst(init, k);
      assert init[1..] == rows[1..][..|rows| - 2];
    }
  }

  lemma {:induction false} GroupIsTogether(rows: seq<Activity>, a: Activity)
    ensures TogetherWith(rows, a) == Group(rows, KeyOf(a))
  {
    if rows != [] {
      GroupFirst(rows, KeyOf(a));
      TogetherIsOneKey(rows[0], a);
      GroupIsTogether(rows[1..], a);
    }
  }

  lemma {:induction false} FilesFirst(rows: seq<Activity>)
    requires rows != []
    ensures AllFiles(rows) == FilesOf(rows[0]) + AllFiles(rows[1..])
    decreases |rows|
  {
    if |rows| > 1 {
      hide FilesOf;
      var init, last, rest := rows[..|rows| - 1], rows[|rows| - 1], rows[1..];
      FilesFirst(init);
      assert init[1..] == rest[..|rest| - 1] && rest[|rest| - 1] == last;
      assert AllFiles(rows) == AllFiles(init) + FilesOf(last);
      assert AllFiles(rest) == AllFiles(init[1..]) + FilesOf(last);
    }
  }

  lemma {:induction false} AllFilesListed(rows: seq<Activity>)
    ensures ListedIn(rows) == AllFiles(rows)
  {
    if rows != [] {
      FilesFirst(rows);
      AllFilesListed(rows[1..]);
    }
  }

  /** The record holds the files of the rows it shares with `a`, in order, at the earliest of their times. */
  ghost predicate Collects(r: Record, rows: seq<Activity>, a: Activity) {
    && r.files == ListedIn(TogetherWith(rows, a))
    && (forall b :: b in rows && Together(b, a) ==> r.timestamp <= b.timestamp)
    && (exists b :: b in rows && Together(b, a) && r.timestamp == b.timestamp)
  }

  lemma RecordCollects(rows: seq<Activity>, a: Activity)
    requires a in rows
    ensures KeyOf(a) in KeysOf(rows)
    ensures BelongsTo(RecordOf(rows, KeyOf(a)), a) && Collects(RecordOf(rows, KeyOf(a)), rows, a)
  {
    var k := KeyOf(a);
    GroupMember(rows, k);
    assert a in Group(rows, k);
    RecordsKeepTheirKey(rows, k);
    RecordOfKey(RecordOf(rows, k), a);
    GroupIsTogether(rows, a);
    AllFilesListed(Group(rows, k));
    forall b ensures Together(b, a) <==> KeyOf(b) == k {
      TogetherIsOneKey(b, a);
    }
  }

  /** A batch by its keys: one record for each key of the rows. */
  lemma BatchByKey(batch: seq<Record>, rows: seq<Activity>)
    requires Delivers(batch, rows)
    ensures forall r :: r in batch ==> KeyOfRecord(r) in KeysOf(rows) && r == RecordOf(rows, KeyOfRecord(r))
    ensures forall k :: k in KeysOf(rows) ==> RecordOf(rows, k) in batch
    ensures forall i, j :: 0 <= i < |batch| && 0 <= j < |batch| && KeyOfRecord(batch[i]) == KeyOfRecord(batch[j]) ==> i == j
  {
    hide RecordOf, KeysOf;
    var m := Merge(rows);
    var keys :| Enumerates(batch, keys, m);
    forall i | 0 <= i < |batch| ensures keys[i] in KeysOf(rows) && KeyOfRecord(batch[i]) == keys[i] && batch[i] == RecordOf(rows, keys[i]) {
      assert keys[i] in keys && keys[i] in m;
      RecordsKeepTheirKey(rows, keys[i]);
    }
    forall k | k in KeysOf(rows) ensures RecordOf(rows, k) in batch {
      assert k in m && k in keys;
      var i :| 0 <= i < |keys| && keys[i] == k;
      assert batch[i] == m[k];
    }
  }

  /** Two rows of a batch go into the same record if and only if they are of the same user, server, address
      and event and of the same minute; every row goes into one record, every record comes from a row, and
      it collects the files of its rows. */
  lemma OneRecordForEach(batch: seq<Record>, rows: seq<Activity>)
    requires Delivers(batch, rows)
    ensures forall a :: a in rows ==> exists r :: r in batch && BelongsTo(r, a)
    ensures forall r :: r in batch ==> exists a :: a in rows && BelongsTo(r, a)
    ensures forall i, j, a :: 0 <= i < |batch| && 0 <= j < |batch| && BelongsTo(batch[i], a) && BelongsTo(batch[j], a) ==> i == j
    ensures forall a, b :: a in rows && b in rows ==>
      (Together(a, b) <==> exists r :: r in batch && BelongsTo(r, a) && BelongsTo(r, b))
    ensures forall r, a :: r in batch && a in rows && BelongsTo(r, a) ==> Collects(r, rows, a)
  {
    hide Delivers, RecordOf, KeysOf, Together, BelongsTo, Collects, KeyOf, KeyOfRecord;
    BatchByKey(batch, rows);
    forall r, a ensures BelongsTo(r, a) <==> KeyOfRecord(r) == KeyOf(a) {
      RecordOfKey(r, a);
    }
    forall a, b ensures Together(a, b) <==> KeyOf(a) == KeyOf(b) {
      TogetherIsOneKey(a, b);
    }
    forall a | a in rows
      ensures KeyOf(a) in KeysOf(rows) && RecordOf(rows, KeyOf(a)) in batch
      ensures BelongsTo(RecordOf(rows, KeyOf(a)), a) && Collects(RecordOf(rows, KeyOf(a)), rows, a)
    {
      RecordCollects(rows, a);
    }
    forall r | r in batch ensures exists a :: a in rows && BelongsTo(r, a) {
      KeyHasRow(rows, KeyOfRecord(r));
    }
  }

  lemma KeyHasRow(rows: seq<Activity>, k: Key)
    requires k in KeysOf(rows)
    ensures exists a :: a in rows && KeyOf(a) == k
  {
    GroupMember(rows, k);
    assert Group(rows, k)[0] in Group(rows, k);
  }

  // ------------------------------------------------------------------ the event map

  class EventMap {
    const max: int
    var ids: seq<nat>
    var m: map<Key, Record>
    ghost var pushed: seq<Activity>

    /** The map is the merge of the rows taken so far, and `ids` names exactly those, in order. */
    ghost predicate Valid()
      reads this
    {
      m == Merge(Taken(max, pushed)) && ids == IdsOf(Taken(max, pushed))
    }

    constructor (max: int)
      ensures Valid() && this.max == max && pushed == []
    {
      this.max := max;
      ids, m, pushed := [], map[], [];
    }

    /** The key of the record for a row, created when there is room for it. */
    method ForActivity(a: Activity) returns (found: bool)
      modifies this`m
      ensures found <==> KeyOf(a) in old(m) || |old(m)| < max
      ensures m == if found && KeyOf(a) !in old(m) then old(m)[KeyOf(a) := Created(a)] else old(m)
    {
      var key := KeyOf(a);
      if key in m {
        return true;
      }
      if |m| >= max {
        return false;
      }
      m := m[key := Created(a)];
      return true;
    }

    method Push(a: Activity)
      requires Valid()
      modifies this
      ensures Valid() && pushed == old(pushed) + [a]
    {
      ghost var taken := Taken(max, pushed);
      TakenAppend(max, pushed, a);
      KeysOfMerge(taken);
      if Accepts(max, taken, a) {
        MergeAppend(taken, a);
        IdsAppend(taken, a);
      }
      pushed := pushed + [a];
      Fold(a);
    }

    /** Pushes one page. */
    method PushAll(activity: seq<Activity>)
      requires Valid()
      modifies this
      ensures Valid() && pushed == old(pushed) + activity
    {
      for i := 0 to |activity|
        invariant Valid() && pushed == old(pushed) + activity[..i]
      {
        Push(activity[i]);
        assert activity[..i + 1] == activity[..i] + [activity[i]];
      }
      assert activity[..|activity|] == activity;
    }

    /** The body of Push, on the map alone. */
    method Fold(a: Activity)
      modifies this`ids, this`m
      ensures var k, found := KeyOf(a), KeyOf(a) in old(m) || |old(m)| < max;
        && ids == (if found then old(ids) + [a.id] else old(ids))
        && m == (if found then old(m)[k := Extended(if k in old(m) then old(m)[k] else Created(a), a)] else old(m))
    {
      var found := ForActivity(a);
      if !found {
        return;
      }
      ids := ids + [a.id];
      var r := m[KeyOf(a)];
      if a.timestamp < r.timestamp {
        m := m[KeyOf(a) := r.(timestamp := a.timestamp)];
      }
      r := m[KeyOf(a)];
      if a.files.Listed? {
        m := m[KeyOf(a) := r.(files := r.files + a.files.files)];
      } else {
        assert r.files + [] == r.files;
      }
    }

    method Elements() returns (out: seq<Record>)
      requires Valid()
      ensures Delivers(out, Taken(max, pushed)) && |out| == |m|
    {
      out := [];
      ghost var keys: seq<Key> := [];
      var rest := m.Keys;
      assert m - rest == map[];
      while rest != {}
        invariant rest <= m.Keys && |out| == |m| - |rest|
        invariant Enumerates(out, keys, m - rest)
        decreases rest
      {
        var k :| k in rest;
        EnumeratesMore(out, keys, m, rest, k);
        out, keys := out + [m[k]], keys + [k];
        rest := rest - {k};
      }
      assert m - rest == m;
    }
  }

  // ------------------------------------------------------------------ the run

  datatype CronResult = Done | Running | FetchFailed | SendFailed | DeleteFailed

  /** Every query succeeds and the panel takes the batch. */
  ghost predicate Healthy(env: Env) {
    env.sends && (forall o: nat :: env.fetches(o)) && (forall i: nat :: env.deletes(i))
  }

  /** Which queries of a run succeed, by offset, and whether the panel takes the batch. */
  datatype Env = Env(fetches: nat -> bool, sends: bool, deletes: nat -> bool)

  ghost predicate UniqueIds(rows: seq<Activity>) {
    forall i, j :: 0 <= i < j < |rows| ==> rows[i].id != rows[j].id
  }

  function Excluding(rows: seq<Activity>, ids: set<nat>): seq<Activity> {
    if rows == [] then [] else
      var init, last := rows[..|rows| - 1], rows[|rows| - 1];
      if last.id in ids then Excluding(init, ids) else Excluding(init, ids) + [last]
  }

  lemma {:induction false} ExcludingMember(rows: seq<Activity>, ids: set<nat>)
    ensures forall a :: a in Excluding(rows, ids) <==> a in rows && a.id !in ids
  {
    if rows != [] {
      ExcludingMember(rows[..|rows| - 1], ids);
    }
  }

  function Elems(ids: seq<nat>): set<nat> {
    set i | i in ids
  }

  lemma {:induction false} ExcludingTwice(rows: seq<Activity>, s: set<nat>, t: set<nat>)
    ensures Excluding(Excluding(rows, s), t) == Excluding(rows, s + t)
  {
    if rows != [] {
      var init, last := rows[..|rows| - 1], rows[|rows| - 1];
      ExcludingTwice(init, s, t);
      if last.id !in s {
        var w := Excluding(init, s) + [last];
        assert w[..|w| - 1] == Excluding(init, s) && w[|w| - 1] == last;
        assert Excluding(rows, s) == w;
      }
    }
  }

  lemma {:induction false} ExcludingNone(rows: seq<Activity>)
    ensures Excluding(rows, {}) == rows
  {
    if rows != [] {
      ExcludingNone(rows[..|rows| - 1]);
    }
  }

  lemma {:induction false} ExcludingUnique(rows: seq<Activity>, s: set<nat>)
    requires UniqueIds(rows)
    ensures UniqueIds(Excluding(rows, s))
  {
    if rows != [] {
      var init, last := rows[..|rows| - 1], rows[|rows| - 1];
      ExcludingUnique(init, s);
      ExcludingMember(init, s);
      assert forall a :: a in init ==> a.id != last.id;
    }
  }

  lemma ElemsOfIds(rows: seq<Activity>, a: Activity)
    ensures Elems(IdsOf(rows + [a])) == Elems(IdsOf(rows)) + {a.id}
    ensures UniqueIds(rows + [a]) ==> a.id !in Elems(IdsOf(rows))
  {
    IdsAppend(rows, a);
    forall j | 0 <= j < |rows| ensures UniqueIds(rows + [a]) ==> IdsOf(rows)[j] != a.id {
      assert (rows + [a])[j] == rows[j] && (rows + [a])[|rows|] == a;
    }
  }

  lemma {:induction false} ExcludingCounts(rows: seq<Activity>, s: set<nat>)
    requires UniqueIds(rows)
    ensures |Excluding(rows, s)| == |rows| - |s * Elems(IdsOf(rows))|
  {
    if rows == [] {
      assert s * Elems(IdsOf(rows)) == {};
    } else {
      var init, last := rows[..|rows| - 1], rows[|rows| - 1];
      ExcludingCounts(init, s);
      assert rows == init + [last];
      ElemsOfIds(init, last);
      var before := Elems(IdsOf(init));
      if last.id in s {
        assert s * (before + {last.id}) == s * before + {last.id};
      } else {
        assert s * (before + {last.id}) == s * before;
      }
    }
  }

  /** Each batch was made from the rows recorded with it. */
  ghost predicate AllDelivered(max: int, sent: seq<seq<Record>>, origins: seq<seq<Activity>>) {
    |sent| == |origins| && forall i :: 0 <= i < |sent| ==> Delivers(sent[i], origins[i]) && |sent[i]| <= max
  }

  /** Rows from `offset` on, at most `max`; a negative limit means no limit to the query. */
  function Page(rows: seq<Activity>, max: int, offset: nat): (page: seq<Activity>)
    requires offset <= |rows|
    ensures offset + |page| <= |rows| && rows[..offset] + page == rows[..offset + |page|]
    ensures 0 < max ==> |page| == if |rows| - offset < max then |rows| - offset else max
  {
    var end := if max < 0 || offset + max > |rows| then |rows| else offset + max;
    assert rows[..offset] + rows[offset..end] == rows[..end];
    rows[offset..end]
  }

  /** Reading ended with a page that added no row to the batch, or that was empty. */
  ghost predicate Stopped(rows: seq<Activity>, max: int, pushed: seq<Activity>) {
    exists o :: 0 <= o <= |rows| && LastPage(rows, max, pushed, o)
  }

  ghost predicate LastPage(rows: seq<Activity>, max: int, pushed: seq<Activity>, o: nat)
    requires o <= |rows|
  {
    pushed == rows[..o] + Page(rows, max, o) && Taken(max, pushed) == Taken(max, rows[..o])
  }

  lemma {:induction false} TakenPrefix(max: int, a: seq<Activity>, b: seq<Activity>)
    ensures Taken(max, a) <= Taken(max, a + b)
    decreases |b|
  {
    if b == [] {
      assert a + b == a;
    } else {
      var n := |b| - 1;
      TakenPrefix(max, a, b[..n]);
      assert a + b == (a + b[..n]) + [b[n]];
      TakenAppend(max, a + b[..n], b[n]);
    }
  }

  lemma LastPageEmpty(rows: seq<Activity>, max: int, pushed: seq<Activity>)
    requires pushed <= rows && Page(rows, max, |pushed|) == []
    ensures Stopped(rows, max, pushed)
  {
    assert pushed == rows[..|pushed|];
    assert LastPage(rows, max, pushed, |pushed|);
  }

  /** A page that added no ids is the last one read. */
  lemma NothingAdded(rows: seq<Activity>, max: int, pushed: seq<Activity>, page: seq<Activity>, before: seq<nat>, after: seq<nat>)
    requires pushed <= rows && page == Page(rows, max, |pushed|)
    requires before == IdsOf(Taken(max, pushed)) && after == IdsOf(Taken(max, pushed + page))
    ensures pushed + page <= rows
    ensures |after| <= |before| ==> Stopped(rows, max, pushed + page)
  {
    assert pushed == rows[..|pushed|];
    TakenPrefix(max, pushed, page);
    if |after| <= |before| {
      assert Taken(max, pushed + page) == Taken(max, pushed);
      assert LastPage(rows, max, pushed + page, |pushed|);
    }
  }

  /** The batches of ids that the delete queries name, one after the other. */
  function Flatten(chunks: seq<seq<nat>>): seq<nat> {
    if chunks == [] then [] else Flatten(chunks[..|chunks| - 1]) + chunks[|chunks| - 1]
  }

  /** A query names no more ids than SQLite takes parameters. */
  ghost predicate Small(chunks: seq<seq<nat>>) {
    forall c :: c in chunks ==> 0 < |c| <= 32000
  }

  /** After the queries `chunks` the first `n` of `ids` are gone from `rows`. */
  ghost predicate Deleted(rows: seq<Activity>, left: seq<Activity>, ids: seq<nat>, n: nat, chunks: seq<seq<nat>>) {
    n <= |ids| && left == Excluding(rows, Elems(ids[..n])) && Flatten(chunks) == ids[..n] && Small(chunks)
  }

  lemma NothingDeleted(rows: seq<Activity>, ids: seq<nat>)
    ensures Deleted(rows, rows, ids, 0, [])
  {
    ExcludingNone(rows);
    assert Elems(ids[..0]) == {};
  }

  lemma OneMoreChunk(rows: seq<Activity>, left: seq<Activity>, ids: seq<nat>, start: nat, end: nat, chunks: seq<seq<nat>>)
    requires start < end <= |ids| && end - start <= 32000 && Deleted(rows, left, ids, start, chunks)
    ensures Deleted(rows, Excluding(left, Elems(ids[start..end])), ids, end, chunks + [ids[start..end]])
  {
    ExcludingTwice(rows, Elems(ids[..start]), Elems(ids[start..end]));
    assert ids[..start] + ids[start..end] == ids[..end];
    assert Elems(ids[..start]) + Elems(ids[start..end]) == Elems(ids[..end]);
    FlattenAppend(chunks, ids[start..end]);
  }

  lemma FlattenAppend(chunks: seq<seq<nat>>, chunk: seq<nat>)
    ensures Flatten(chunks + [chunk]) == Flatten(chunks) + chunk
  {
    assert (chunks + [chunk])[..|chunks|] == chunks;
  }

  lemma OneMoreDelivered(max: int, sent: seq<seq<Record>>, origins: seq<seq<Activity>>, batch: seq<Record>, rows: seq<Activity>)
    requires AllDelivered(max, sent, origins) && Delivers(batch, rows) && |batch| <= max
    ensures AllDelivered(max, sent + [batch], origins + [rows]) && sent <= sent + [batch]
  {
  }

  /** The table, the batches the panel has taken, and the rows each was made from. */
  datatype Store = Store(table: seq<Activity>, sent: seq<seq<Record>>, origins: seq<seq<Activity>>)

  /** At most one batch was taken, made from the first rows of the table up to where reading stopped; of
      its rows the first `deleted` are gone from the table, all of them when nothing failed. */
  ghost predicate OneBatch(max: int, s: Store, s': Store, read: seq<Activity>, deleted: nat, r: CronResult) {
    && s.sent <= s'.sent && s.origins <= s'.origins && |s'.sent| <= |s.sent| + 1
    && (s'.sent == s.sent ==> s'.table == s.table)
    && read <= s.table && deleted <= |Taken(max, read)|
    && (|s'.sent| > |s.sent| ==>
          && Stopped(s.table, max, read)
          && s'.origins == s.origins + [Taken(max, read)]
          && s'.table == Excluding(s.table, Elems(IdsOf(Taken(max, read))[..deleted]))
          && (r.Done? ==> deleted == |Taken(max, read)|))
  }

  /** A row leaves the table only after a batch made from it was taken; a run without an error takes at
      least `max` rows, or all. */
  ghost predicate Conserved(max: int, s: Store, s': Store, r: CronResult) {
    && |s'.table| <= |s.table|
    && (r.Done? && 0 < max ==> |s'.table| <= (if |s.table| < max then 0 else |s.table| - max))
    && (forall a :: a in s.table && a !in s'.table ==>
          |s'.sent| > |s.sent| && s'.origins != [] && a in s'.origins[|s'.origins| - 1])
  }

  class Reconciler {
    const max: int
    var running: bool
    // the SFTP rows, in the order of the query
    var table: seq<Activity>
    // the batches the panel has taken, and the rows each was made from
    var sent: seq<seq<Record>>
    ghost var origins: seq<seq<Activity>>

    ghost predicate Valid()
      reads this
    {
      UniqueIds(table) && AllDelivered(max, sent, origins)
    }

    ghost function Now(): Store
      reads this
    {
      Store(table, sent, origins)
    }

    function FetchRecords(offset: nat): seq<Activity>
      requires offset <= |table|
      reads this
    {
      Page(table, max, offset)
    }

    /** The first half of Run: read and merge, page after page, until a page adds nothing. */
    method Collect(env: Env) returns (ok: bool, events: EventMap)
      ensures fresh(events) && events.Valid() && events.max == max
      ensures ok ==> events.pushed <= table && Stopped(table, max, events.pushed)
      ensures Healthy(env) ==> ok
      ensures ok && 0 < max ==> |events.pushed| >= (if |table| < max then |table| else max)
    {
      events := new EventMap(max);
      var o := 0;
      if !env.fetches(o) {
        return false, events;
      }
      var activity := FetchRecords(o);
      o := o + |activity|;
      ok := true;
      ghost var rows := table;
      while true
        invariant ok && events.Valid() && events.max == max && fresh(events) && table == rows
        invariant events.pushed <= rows && activity == Page(rows, max, |events.pushed|) && o == |events.pushed| + |activity|
        invariant 0 < max ==> o >= (if |rows| < max then |rows| else max)
        decreases |rows| - |events.pushed|
      {
        if |activity| == 0 {
          LastPageEmpty(rows, max, events.pushed);
          break;
        }
        var slen := |events.ids|;
        ghost var before, ids := events.pushed, events.ids;
        events.PushAll(activity);
        NothingAdded(rows, max, before, activity, ids, events.ids);
        assert events.pushed == before + activity <= rows && o == |events.pushed|;
        if |events.ids| > slen {
          if !env.fetches(o) {
            return false, events;
          }
          activity := FetchRecords(o);
          o := o + |activity|;
        } else {
          break;
        }
      }
    }

    /** The second half: delete the rows of a batch, 32000 at a time. */
    method DeleteInChunks(ids: seq<nat>, env: Env) returns (ok: bool, ghost deleted: nat, ghost chunks: seq<seq<nat>>)
      requires UniqueIds(table)
      modifies this`table
      ensures Deleted(old(table), table, ids, deleted, chunks) && (ok ==> deleted == |ids|)
      ensures Healthy(env) ==> ok
    {
      var i := 0;
      chunks := [];
      ghost var rows := table;
      NothingDeleted(rows, ids);
      while i < |ids|
        invariant 0 <= i && Deleted(rows, table, ids, i, chunks)
      {
        var start := i;
        var end := if i + 32000 < |ids| then i + 32000 else |ids|;
        var batchSize := end - start;
        if !env.deletes(start) {
          return false, i, chunks;
        }
        OneMoreChunk(rows, table, ids, start, end, chunks);
        table := Excluding(table, Elems(ids[start..end]));
        chunks := chunks + [ids[start..end]];
        i := i + batchSize;
      }
      return true, i, chunks;
    }

    /** A row leaves the table only after a batch made from it was taken by the panel; a batch has at
        most `max` events and holds the files of its rows; and a run without an error leaves none of
        the rows it sent. A run is done unless a query or the panel fails. `read` are the rows read, `deleted` of the rows taken
        were deleted. */
    method Run(env: Env) returns (r: CronResult, ghost read: seq<Activity>, ghost deleted: nat)
      requires Valid()
      modifies this
      ensures Valid()
      ensures old(running) ==> r == Running && running && table == old(table) && sent == old(sent)
      ensures !old(running) ==> r != Running && !running && (Healthy(env) ==> r.Done?)
      ensures OneBatch(max, old(Now()), Now(), read, deleted, r)
      ensures Conserved(max, old(Now()), Now(), r)
    {
      if running {
        return Running, [], 0;
      }
      running := true;
      r, read, deleted := Reconcile(env);
      running := false;
    }

    /** What Run does once it is the only one running. */
    method Reconcile(env: Env) returns (r: CronResult, ghost read: seq<Activity>, ghost deleted: nat)
      requires Valid()
      modifies this`table, this`sent, this`origins
      ensures Valid() && r != Running && (Healthy(env) ==> r.Done?)
      ensures OneBatch(max, old(Now()), Now(), read, deleted, r)
      ensures Conserved(max, old(Now()), Now(), r)
    {
      hide Taken, Stopped, Excluding, Elems, IdsOf;
      var ok, events := Collect(env);
      if !ok {
        return FetchFailed, [], 0;
      }
      read, deleted := events.pushed, 0;
      ghost var rows, taken := table, Taken(max, read);
      BatchOfRead(max, rows, read);
      if |events.m| == 0 {
        return Done, read, 0;
      }
      r, deleted := SendAndDelete(events, env);
      assert r.SendFailed? ==> table == rows;
    }

    method DeleteTaken(ids: seq<nat>, env: Env, ghost read: seq<Activity>) returns (ok: bool, ghost deleted: nat)
      requires UniqueIds(table) && read <= table && ids == IdsOf(Taken(max, read))
      modifies this`table
      ensures UniqueIds(table) && deleted <= |ids| && (ok ==> deleted == |ids|) && (Healthy(env) ==> ok)
      ensures table == Excluding(old(table), Elems(ids[..deleted])) && |table| == |old(table)| - deleted
      ensures forall a :: a in old(table) && a !in table ==> a in Taken(max, read)
    {
      ghost var rows, chunks := table, [];
      ok, deleted, chunks := DeleteInChunks(ids, env);
      DeletedWereTaken(max, rows, read, deleted);
    }

    /** Sends the collected batch and, when the panel took it, deletes its rows. */
    method SendAndDelete(events: EventMap, env: Env) returns (r: CronResult, ghost deleted: nat)
      requires Valid() && events.Valid() && events.max == max && events.pushed <= table
      requires |events.m| <= max
      modifies this`table, this`sent, this`origins
      ensures Valid() && (r.Done? || r.SendFailed? || r.DeleteFailed?) && (Healthy(env) ==> r.Done?)
      ensures deleted <= |Taken(max, events.pushed)| && (r.Done? ==> deleted == |Taken(max, events.pushed)|)
      ensures r.SendFailed? ==> table == old(table) && sent == old(sent) && origins == old(origins)
      ensures !r.SendFailed? ==>
        && |sent| == |old(sent)| + 1 && old(sent) <= sent
        && origins == old(origins) + [Taken(max, events.pushed)]
        && table == Excluding(old(table), Elems(IdsOf(Taken(max, events.pushed))[..deleted]))
        && |table| == |old(table)| - deleted
        && (forall a :: a in old(table) && a !in table ==> a in Taken(max, events.pushed))
    {
      ghost var taken := Taken(max, events.pushed);
      deleted := 0;
      var batch := events.Elements();
      if !env.sends {
        return SendFailed, 0;
      }
      OneMoreDelivered(max, sent, origins, batch, taken);
      sent, origins := sent + [batch], origins + [taken];
      label Sent:
      var ok;
      ok, deleted := DeleteTaken(events.ids, env, events.pushed);
      assert sent == old@Sent(sent) && origins == old@Sent(origins);
      return if ok then Done else DeleteFailed, deleted;
    }
  }

  lemma NoKeysNoRows(rows: seq<Activity>)
    requires KeysOf(rows) == {}
    ensures rows == []
  {
  }

  /** The first page always fits: it has no more rows than the batch may have keys. */
  lemma {:induction false} ShortListsAreTaken(max: int, rows: seq<Activity>)
    requires |rows| <= max
    ensures Taken(max, rows) == rows && |KeysOf(rows)| <= |rows|
  {
    if rows != [] {
      var init, last := rows[..|rows| - 1], rows[|rows| - 1];
      ShortListsAreTaken(max, init);
      assert rows == init + [last];
      KeysAppend(init, last);
    }
  }

  lemma {:induction false} TakenGrows(max: int, rows: seq<Activity>, n: nat)
    requires n <= |rows|
    ensures |Taken(max, rows[..n])| <= |Taken(max, rows)|
  {
    if n < |rows| {
      TakenGrows(max, rows[..|rows| - 1], n);
      assert rows[..|rows| - 1][..n] == rows[..n];
    } else {
      assert rows[..n] == rows;
    }
  }

  lemma FirstPageIsTaken(max: int, table: seq<Activity>, read: seq<Activity>)
    requires read <= table
    ensures 0 < max && |read| >= (if |table| < max then |table| else max) ==>
      |Taken(max, read)| >= (if |table| < max then |table| else max)
  {
    var first := if |table| < max then |table| else max;
    if 0 < max && |read| >= first {
      ShortListsAreTaken(max, read[..first]);
      TakenGrows(max, read, first);
    }
  }

  /** What the rows read say about the batch: its size, and how much of the table it covers. */
  lemma BatchOfRead(max: int, table: seq<Activity>, read: seq<Activity>)
    requires read <= table
    ensures var taken := Taken(max, read);
      && (Merge(taken) == map[] ==> taken == [])
      && (Merge(taken) != map[] ==> |Merge(taken)| <= max)
      && (0 < max && |read| >= (if |table| < max then |table| else max) ==>
            |taken| >= (if |table| < max then |table| else max))
  {
    var taken := Taken(max, read);
    FirstPageIsTaken(max, table, read);
    KeysOfMerge(taken);
    TakenMeaning(max, read);
    if Merge(taken) == map[] {
      NoKeysNoRows(taken);
    }
  }

  lemma {:induction false} TakenAreRows(max: int, rows: seq<Activity>)
    requires UniqueIds(rows)
    ensures UniqueIds(Taken(max, rows)) && forall a :: a in Taken(max, rows) ==> a in rows
    decreases |rows|
  {
    if rows != [] {
      var init, last := rows[..|rows| - 1], rows[|rows| - 1];
      TakenAreRows(max, init);
      var taken := Taken(max, init);
      assert rows == init + [last];
      forall i | 0 <= i < |taken| ensures taken[i].id != last.id {
        assert taken[i] in init;
      }
    }
  }

  lemma RowIsUnique(rows: seq<Activity>, a: Activity, b: Activity)
    requires UniqueIds(rows) && a in rows && b in rows && a.id == b.id
    ensures a == b
  {
  }

  lemma IdMember(rows: seq<Activity>, n: nat, id: nat)
    requires n <= |rows|
    ensures id in IdsOf(rows)[..n] <==> exists j :: 0 <= j < n && rows[j].id == id
  {
    assert |IdsOf(rows)| == |rows|;
    if id in IdsOf(rows)[..n] {
      var j :| 0 <= j < n && IdsOf(rows)[j] == id;
      assert rows[j].id == id;
    }
    if j :| 0 <= j < n && rows[j].id == id {
      assert IdsOf(rows)[..n][j] == id;
    }
  }

  /** Deleting ids of taken rows deletes those rows and no others. */
  lemma DeletedWereTaken(max: int, table: seq<Activity>, read: seq<Activity>, deleted: nat)
    requires UniqueIds(table) && read <= table && deleted <= |Taken(max, read)|
    ensures var taken := Taken(max, read);
      var rest := Excluding(table, Elems(IdsOf(taken)[..deleted]));
      && UniqueIds(rest) && |rest| == |table| - deleted
      && (forall a :: a in table && a !in rest ==> a in taken)
  {
    var taken := Taken(max, read);
    TakenAreRows(max, read);
    assert forall a :: a in read ==> a in table;
    var gone := IdsOf(taken)[..deleted];
    ExcludingUnique(table, Elems(gone));
    ExcludingMember(table, Elems(gone));
    GoneCount(table, taken, deleted);
    forall a | a in table && a.id in gone ensures a in taken {
      IdMember(taken, deleted, a.id);
      var j :| 0 <= j < deleted && taken[j].id == a.id;
      assert taken[j] in taken;
      RowIsUnique(table, a, taken[j]);
    }
  }

  lemma GoneCount(table: seq<Activity>, taken: seq<Activity>, deleted: nat)
    requires UniqueIds(table) && UniqueIds(taken) && (forall a :: a in taken ==> a in table) && deleted <= |taken|
    ensures |Excluding(table, Elems(IdsOf(taken)[..deleted]))| == |table| - deleted
  {
    var gone := IdsOf(taken)[..deleted];
    ExcludingCounts(table, Elems(gone));
    DistinctElems(gone);
    forall i | i in gone ensures i in IdsOf(table) {
      IdMember(taken, deleted, i);
      var j :| 0 <= j < deleted && taken[j].id == i;
      assert taken[j] in taken && taken[j] in table;
      IdMember(table, |table|, i);
      assert IdsOf(table)[..|table|] == IdsOf(table);
    }
    assert Elems(gone) * Elems(IdsOf(table)) == Elems(gone);
  }

  lemma {:induction false} DistinctElems(ids: seq<nat>)
    requires Distinct(ids)
    ensures |Elems(ids)| == |ids|
  {
    if ids != [] {
      var init, last := ids[..|ids| - 1], ids[|ids| - 1];
      DistinctElems(init);
      assert Elems(ids) == Elems(init) + {last};
    }
  }

  /** Over any number of runs, with any failures: every row is still there or was delivered. And runs
      without errors drain the table, `max` rows or more at a time. */
  method RunAll(c: Reconciler, envs: seq<Env>) returns (done: nat)
    requires c.Valid() && !c.running
    modifies c
    ensures c.Valid() && done <= |envs| && ((forall e :: e in envs ==> Healthy(e)) ==> done == |envs|)
    ensures forall a :: a in old(c.table) && a !in c.table ==>
      exists i :: |old(c.sent)| <= i < |c.sent| && Delivers(c.sent[i], c.origins[i]) && a in c.origins[i]
    ensures 0 < c.max ==> |c.table| <= (if |old(c.table)| < done * c.max then 0 else |old(c.table)| - done * c.max)
  {
    done := 0;
    for j := 0 to |envs|
      invariant c.Valid() && !c.running && done <= j
      invariant (forall e :: e in envs ==> Healthy(e)) ==> done == j
      invariant old(c.sent) <= c.sent
      invariant forall a :: a in old(c.table) && a !in c.table ==>
        exists i :: |old(c.sent)| <= i < |c.sent| && Delivers(c.sent[i], c.origins[i]) && a in c.origins[i]
      invariant 0 < c.max ==> |c.table| <= (if |old(c.table)| < done * c.max then 0 else |old(c.table)| - done * c.max)
    {
      assert envs[j] in envs;
      var r, read, deleted := c.Run(envs[j]);
      if r.Done? {
        assert (done + 1) * c.max == done * c.max + c.max;
        done := done + 1;
      }
    }
  }
}
