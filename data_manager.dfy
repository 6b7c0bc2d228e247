/** The data manager of core/data_manager.py: a time-limited cache of
    loaded configurations, the numbered versions of a student's saved CV,
    the list of known students, and the competency scores and feedback.

    The clock is the parameter `now`; the students directory is given by
    the stems its glob yields, in the glob's order; reading a JSON file is
    a function from the name or stem to the dictionary read (`{}` when the
    file is missing or malformed); writing one is a function saying
    whether the write succeeded. */
module DataManager {
  import opened Common

  // -----------------------------------------------------------------------
  // The cache

  /** `CACHE_TTL`, in seconds. */
  const CacheTtl: real := 300.0

  datatype CacheEntry = CacheEntry(data: Dict, timestamp: real)

  /** `CacheEntry.is_expired`: strictly older than the time to live. */
  predicate IsExpired(e: CacheEntry, now: real, ttl: real) {
    now - e.timestamp > ttl
  }

  /** An entry exactly `ttl` old is still valid, and an expired entry
      stays expired as the clock moves on. */
  lemma ExpiryBoundary(e: CacheEntry, now: real, later: real)
    ensures !IsExpired(e, e.timestamp + CacheTtl, CacheTtl)
    ensures IsExpired(e, now, CacheTtl) && now <= later ==> IsExpired(e, later, CacheTtl)
  {
  }

  /** What `_get_from_cache` returns: the data of a present, unexpired
      entry. */
  function Lookup(entries: map<string, CacheEntry>, key: string, now: real): Option<Dict> {
    if key in entries && !IsExpired(entries[key], now, CacheTtl) then Some(entries[key].data) else None
  }

  /** The cache after `_get_from_cache`: an expired entry for the key is
      deleted. */
  function AfterGet(entries: map<string, CacheEntry>, key: string, now: real): map<string, CacheEntry> {
    if key in entries && IsExpired(entries[key], now, CacheTtl) then entries - {key} else entries
  }

  /** The three outcomes of a cache read; no other key is touched. */
  lemma GetOutcomes(entries: map<string, CacheEntry>, key: string, now: real)
    ensures key !in entries ==> Lookup(entries, key, now) == None && AfterGet(entries, key, now) == entries
    ensures key in entries && !IsExpired(entries[key], now, CacheTtl) ==>
      Lookup(entries, key, now) == Some(entries[key].data) && AfterGet(entries, key, now) == entries
    ensures key in entries && IsExpired(entries[key], now, CacheTtl) ==>
      Lookup(entries, key, now) == None && key !in AfterGet(entries, key, now)
    ensures forall k :: k != key ==>
      (k in AfterGet(entries, key, now) <==> k in entries) &&
      (k in entries ==> AfterGet(entries, key, now)[k] == entries[k])
  {
  }

  /** Reading the same key again at the same time changes nothing. */
  lemma GetIdempotent(entries: map<string, CacheEntry>, key: string, now: real)
    ensures Lookup(AfterGet(entries, key, now), key, now) == Lookup(entries, key, now)
    ensures AfterGet(AfterGet(entries, key, now), key, now) == AfterGet(entries, key, now)
  {
  }

  /** What `load_cv_config` returns: the cached data, or else the file's. */
  function CvConfig(entries: map<string, CacheEntry>, name: string, now: real, load: string -> Dict): Dict {
    match Lookup(entries, name, now)
    case Some(d) => d
    case None => load(name)
  }

  /** The configuration cache after `load_cv_config`: on a miss, data read
      from the file is cached when it is not empty. */
  function CvCacheAfter(entries: map<string, CacheEntry>, name: string, now: real, load: string -> Dict): map<string, CacheEntry> {
    var e := AfterGet(entries, name, now);
    if Lookup(entries, name, now).Some? then e
    else if load(name) != map[] then e[name := CacheEntry(load(name), now)]
    else e
  }

  /** After a miss that read a non-empty file, the next load within the
      time to live is served from the cache, whatever the file now holds. */
  lemma SecondLoadIsCached(entries: map<string, CacheEntry>, name: string, now: real, later: real,
                           load: string -> Dict, load': string -> Dict)
    requires Lookup(entries, name, now) == None && load(name) != map[]
    requires now <= later <= now + CacheTtl
    ensures Lookup(CvCacheAfter(entries, name, now, load), name, later) == Some(load(name))
    ensures CvConfig(CvCacheAfter(entries, name, now, load), name, later, load') == CvConfig(entries, name, now, load)
  {
  }

  /** An empty file is never cached: the next load reads the file again. */
  lemma EmptyConfigNotCached(entries: map<string, CacheEntry>, name: string, now: real, load: string -> Dict)
    requires Lookup(entries, name, now) == None && load(name) == map[]
    ensures Lookup(CvCacheAfter(entries, name, now, load), name, now) == None
  {
  }

  /** The cache with the key's entry deleted, if it has one. */
  function Evict(entries: map<string, CacheEntry>, key: string): (r: map<string, CacheEntry>)
    ensures key !in r
    ensures forall k :: k != key ==> (k in r <==> k in entries) && (k in r ==> r[k] == entries[k])
  {
    if key in entries then entries - {key} else entries
  }

  /** A dictionary shared by reference between the manager's methods. */
  class Cache {
    var entries: map<string, CacheEntry>

    constructor ()
      ensures entries == map[]
    {
      entries := map[];
    }

    /** `if key in cache: del cache[key]`. */
    method Discard(key: string)
      modifies this
      ensures entries == Evict(old(entries), key)
    {
      if key in entries {
        entries := entries - {key};
      }
    }
  }

  // -----------------------------------------------------------------------
  // Version numbers in file stems

  /** The last `_`-separated part of a stem (`parts[-1]`). */
  function LastPart(stem: string): string {
    var parts := Split(stem, '_');
    parts[|parts| - 1]
  }

  /** The last part without its first character, parsed by `int()`; None
      where `int()` raises. */
  function VersionNumber(stem: string): Option<int> {
    var v := LastPart(stem);
    ParseInt(if v == [] then v else v[1..])
  }

  /** `version_key`: the version number, or 0 when it cannot be parsed. */
  function VersionKey(stem: string): int {
    match VersionNumber(stem)
    case Some(n) => n
    case None => 0
  }

  /** The last part of `a + "_" + b` is `b` when `b` has no `_`. */
  lemma LastPartAfterSeparator(a: string, b: string)
    requires '_' !in b
    ensures LastPart(a + ['_'] + b) == b
  {
    SplitAround(a, b, '_');
    SplitNoSep(b, '_');
  }

  /** The stem of a version file. */
  function VersionStem(studentId: string, version: string): string {
    "config_" + studentId + "_" + version
  }

  /** The name `save_student_version` gives version `n`. */
  function VersionName(n: nat): string {
    "v" + Decimal(n)
  }

  /** A version file written for version `n` is read back as version `n`,
      whatever the student id. */
  lemma VersionStemRoundTrip(studentId: string, n: nat)
    ensures LastPart(VersionStem(studentId, VersionName(n))) == VersionName(n)
    ensures VersionNumber(VersionStem(studentId, VersionName(n))) == Some(n)
  {
    var d := Decimal(n);
    assert '_' !in VersionName(n) by {
      forall i | 0 <= i < |d| ensures d[i] != '_' { assert IsDigit(d[i]); }
    }
    assert VersionStem(studentId, VersionName(n)) == ("config_" + studentId) + ['_'] + VersionName(n);
    LastPartAfterSeparator("config_" + studentId, VersionName(n));
    assert VersionName(n)[1..] == d;
    ParseIntDecimal(n);
  }

  // -----------------------------------------------------------------------
  // The stable sort of `files.sort(key=version_key)`

  predicate SortedByKey<T>(s: seq<T>, key: T -> int) {
    forall i, j :: 0 <= i < j < |s| ==> key(s[i]) <= key(s[j])
  }

  /** Puts `x` after every entry whose key is not greater than its own. */
  function InsertByKey<T>(x: T, s: seq<T>, key: T -> int): seq<T> {
    if s == [] then [x]
    else if key(x) < key(s[0]) then [x] + s
    else [s[0]] + InsertByKey(x, s[1..], key)
  }

  /** Python's stable sort by a key. */
  function SortByKey<T>(xs: seq<T>, key: T -> int): seq<T> {
    if xs == [] then []
    else InsertByKey(xs[|xs| - 1], SortByKey(xs[..|xs| - 1], key), key)
  }

  /** The entries of `s` with key `k`, in order. */
  function WithKey<T>(s: seq<T>, key: T -> int, k: int): seq<T> {
    if s == [] then []
    else (if key(s[0]) == k then [s[0]] else []) + WithKey(s[1..], key, k)
  }

  /** Every key of `s` is at least `k`. */
  predicate KeysAtLeast<T>(s: seq<T>, key: T -> int, k: int) {
    forall i :: 0 <= i < |s| ==> k <= key(s[i])
  }

  lemma ConsSorted<T>(h: T, r: seq<T>, key: T -> int)
    requires SortedByKey(r, key) && KeysAtLeast(r, key, key(h))
    ensures SortedByKey([h] + r, key)
  {
    forall i, j | 0 <= i < j < |[h] + r| ensures key(([h] + r)[i]) <= key(([h] + r)[j]) {
      if i > 0 {
        assert ([h] + r)[i] == r[i - 1];
      }
      assert ([h] + r)[j] == r[j - 1];
    }
  }

  lemma {:induction false} InsertKeysAtLeast<T>(x: T, s: seq<T>, key: T -> int, k: int)
    requires k <= key(x) && KeysAtLeast(s, key, k)
    ensures KeysAtLeast(InsertByKey(x, s, key), key, k)
  {
    if s != [] && key(x) >= key(s[0]) {
      InsertKeysAtLeast(x, s[1..], key, k);
      var r := InsertByKey(x, s[1..], key);
      assert forall i :: 1 <= i < |[s[0]] + r| ==> ([s[0]] + r)[i] == r[i - 1];
    } else if s != [] {
      assert forall i :: 1 <= i < |[x] + s| ==> ([x] + s)[i] == s[i - 1];
    }
  }

  lemma {:induction false} InsertSorted<T>(x: T, s: seq<T>, key: T -> int)
    requires SortedByKey(s, key)
    ensures SortedByKey(InsertByKey(x, s, key), key)
  {
    if s == [] {
    } else if key(x) < key(s[0]) {
      ConsSorted(x, s, key);
    } else {
      InsertSorted(x, s[1..], key);
      InsertKeysAtLeast(x, s[1..], key, key(s[0]));
      ConsSorted(s[0], InsertByKey(x, s[1..], key), key);
    }
  }

  lemma {:induction false} InsertPerm<T>(x: T, s: seq<T>, key: T -> int)
    ensures multiset(InsertByKey(x, s, key)) == multiset(s) + multiset{x}
  {
    if s != [] && key(x) >= key(s[0]) {
      InsertPerm(x, s[1..], key);
      assert s == [s[0]] + s[1..];
    }
  }

  /** The sort orders by key. */
  lemma {:induction false} SortByKeySorted<T>(xs: seq<T>, key: T -> int)
    ensures SortedByKey(SortByKey(xs, key), key)
    decreases |xs|
  {
    if xs != [] {
      SortByKeySorted(xs[..|xs| - 1], key);
      InsertSorted(xs[|xs| - 1], SortByKey(xs[..|xs| - 1], key), key);
    }
  }

  /** The sort keeps every entry, as often as it occurs. */
  lemma {:induction false} SortByKeyPerm<T>(xs: seq<T>, key: T -> int)
    ensures multiset(SortByKey(xs, key)) == multiset(xs)
    decreases |xs|
  {
    if xs != [] {
      var init := xs[..|xs| - 1];
      SortByKeyPerm(init, key);
      InsertPerm(xs[|xs| - 1], SortByKey(init, key), key);
      assert xs == init + [xs[|xs| - 1]];
    }
  }

  lemma {:induction false} WithKeyAppend<T>(a: seq<T>, b: seq<T>, key: T -> int, k: int)
    ensures WithKey(a + b, key, k) == WithKey(a, key, k) + WithKey(b, key, k)
  {
    if a != [] {
      WithKeyAppend(a[1..], b, key, k);
      assert (a + b)[1..] == a[1..] + b;
    } else {
      assert a + b == b;
    }
  }

  lemma {:induction false} WithKeyAbove<T>(s: seq<T>, key: T -> int, k: int)
    requires forall i :: 0 <= i < |s| ==> key(s[i]) > k
    ensures WithKey(s, key, k) == []
  {
    if s != [] {
      WithKeyAbove(s[1..], key, k);
    }
  }

  /** Inserting in front of a sorted list whose keys are all larger: an
      entry with key `k` can only be the new one. */
  lemma InsertFrontWithKey<T>(x: T, s: seq<T>, key: T -> int, k: int)
    requires s != [] && SortedByKey(s, key) && key(x) < key(s[0])
    ensures WithKey([x] + s, key, k) == WithKey(s, key, k) + (if key(x) == k then [x] else [])
  {
    assert ([x] + s)[0] == x;
    assert ([x] + s)[1..] == s;
    if key(x) == k {
      forall i | 0 <= i < |s|
        ensures key(s[i]) > k
      {
        if i > 0 {
          assert key(s[0]) <= key(s[i]);
        }
      }
      WithKeyAbove(s, key, k);
    }
  }

  lemma {:induction false} InsertWithKey<T>(x: T, s: seq<T>, key: T -> int, k: int)
    requires SortedByKey(s, key)
    ensures WithKey(InsertByKey(x, s, key), key, k) == WithKey(s, key, k) + (if key(x) == k then [x] else [])
  {
    if s == [] {
      assert WithKey([x], key, k) == (if key(x) == k then [x] else []) + WithKey([], key, k);
    } else if key(x) < key(s[0]) {
      InsertFrontWithKey(x, s, key, k);
    } else {
      SortedTail(s, key);
      InsertWithKey(x, s[1..], key, k);
      InsertAfterWithKey(x, s, key, k);
    }
  }

  lemma SortedTail<T>(s: seq<T>, key: T -> int)
    requires s != [] && SortedByKey(s, key)
    ensures SortedByKey(s[1..], key)
  {
  }

  /** Inserting behind the first entry keeps that entry first: the step
      from the tail's equation to the whole list's. */
  lemma InsertAfterWithKey<T>(x: T, s: seq<T>, key: T -> int, k: int)
    requires s != [] && key(s[0]) <= key(x)
    requires WithKey(InsertByKey(x, s[1..], key), key, k) == WithKey(s[1..], key, k) + (if key(x) == k then [x] else [])
    ensures WithKey(InsertByKey(x, s, key), key, k) == WithKey(s, key, k) + (if key(x) == k then [x] else [])
  {
    var t := InsertByKey(x, s[1..], key);
    assert InsertByKey(x, s, key) == [s[0]] + t;
    WithKeyCons(s[0], t, key, k);
  }

  lemma WithKeyCons<T>(y: T, t: seq<T>, key: T -> int, k: int)
    ensures WithKey([y] + t, key, k) == (if key(y) == k then [y] else []) + WithKey(t, key, k)
  {
    assert ([y] + t)[0] == y && ([y] + t)[1..] == t;
  }

  /** The sort is stable: entries with the same key keep their order. */
  lemma {:induction false} SortByKeyStable<T>(xs: seq<T>, key: T -> int, k: int)
    ensures WithKey(SortByKey(xs, key), key, k) == WithKey(xs, key, k)
    decreases |xs|
  {
    if xs != [] {
      var init, x := xs[..|xs| - 1], xs[|xs| - 1];
      SortByKeyStable(init, key, k);
      SortByKeySorted(init, key);
      InsertWithKey(x, SortByKey(init, key), key, k);
      assert xs == init + [x];
      WithKeyAppend(init, [x], key, k);
      assert WithKey([x], key, k) == (if key(x) == k then [x] else []) + WithKey([], key, k);
    }
  }

  // -----------------------------------------------------------------------
  // Student history

  /** The entry `load_student_history` makes of a file: its data with
      `_version` set to the stem's last part. */
  function Tagged(data: Dict, stem: string): Dict {
    data["_version" := JStr(LastPart(stem))]
  }

  /** The files whose data is not empty, in order. */
  function Kept(files: seq<string>, load: string -> Dict): seq<string> {
    if files == [] then []
    else
      var last := files[|files| - 1];
      Kept(files[..|files| - 1], load) + (if load(last) != map[] then [last] else [])
  }

  /** The history built from `files`, in order. */
  function History(files: seq<string>, load: string -> Dict): seq<Dict> {
    if files == [] then []
    else
      var last := files[|files| - 1];
      History(files[..|files| - 1], load) + (if load(last) != map[] then [Tagged(load(last), last)] else [])
  }

  /** Each history entry is the tagged data of the kept file at its
      place. */
  lemma {:induction false} HistoryOfKept(files: seq<string>, load: string -> Dict)
    ensures |History(files, load)| == |Kept(files, load)|
    ensures forall i :: 0 <= i < |History(files, load)| ==>
      History(files, load)[i] == Tagged(load(Kept(files, load)[i]), Kept(files, load)[i])
  {
    if files != [] {
      HistoryOfKept(files[..|files| - 1], load);
    }
  }

  /** Dropping files keeps the order. */
  lemma {:induction false} KeptSorted(files: seq<string>, load: string -> Dict, key: string -> int)
    requires SortedByKey(files, key)
    ensures SortedByKey(Kept(files, load), key)
    ensures forall i :: 0 <= i < |Kept(files, load)| ==> Kept(files, load)[i] in files && load(Kept(files, load)[i]) != map[]
  {
    if files != [] {
      var init := files[..|files| - 1];
      assert SortedByKey(init, key);
      KeptSorted(init, load, key);
      var last := files[|files| - 1];
      forall i | 0 <= i < |Kept(init, load)| ensures key(Kept(init, load)[i]) <= key(last) {
        var m :| 0 <= m < |init| && init[m] == Kept(init, load)[i];
        assert files[m] == init[m];
      }
    }
  }

  /** The history of the sorted files holds the tagged data of the
      non-empty files, in ascending version order. */
  lemma SortedHistory(stems: seq<string>, load: string -> Dict)
    ensures var kept := Kept(SortByKey(stems, VersionKey), load);
      var history := History(SortByKey(stems, VersionKey), load);
      && |history| == |kept|
      && SortedByKey(kept, VersionKey)
      && (forall i :: 0 <= i < |kept| ==> kept[i] in stems && load(kept[i]) != map[])
      && (forall i :: 0 <= i < |history| ==> history[i] == Tagged(load(kept[i]), kept[i]))
  {
    var files := SortByKey(stems, VersionKey);
    HistoryOfKept(files, load);
    SortByKeySorted(stems, VersionKey);
    SortByKeyPerm(stems, VersionKey);
    KeptSorted(files, load, VersionKey);
    var kept := Kept(files, load);
    forall i | 0 <= i < |kept| ensures kept[i] in stems {
      assert kept[i] in multiset(files);
    }
  }

  // -----------------------------------------------------------------------
  // Version allocation

  /** The largest value `parse` gives an entry, or 0: the loop of
      `save_student_version` that skips what does not parse. */
  function MaxParsed<T>(xs: seq<T>, parse: T -> Option<int>): (m: nat) {
    if xs == [] then 0
    else
      var m := MaxParsed(xs[..|xs| - 1], parse);
      var v := parse(xs[|xs| - 1]);
      if v.Some? && v.value > m then v.value else m
  }

  /** The maximum bounds every value that parses, and is 0 or one of
      them. */
  lemma {:induction false} MaxParsedBounds<T>(xs: seq<T>, parse: T -> Option<int>)
    ensures forall i :: 0 <= i < |xs| && parse(xs[i]).Some? ==> parse(xs[i]).value <= MaxParsed(xs, parse)
    ensures MaxParsed(xs, parse) == 0 || exists i :: 0 <= i < |xs| && parse(xs[i]) == Some(MaxParsed(xs, parse))
  {
    if xs != [] {
      var init := xs[..|xs| - 1];
      MaxParsedBounds(init, parse);
      assert forall i :: 0 <= i < |init| ==> init[i] == xs[i];
    }
  }

  /** `max_version`: the largest version number among the stems, or 0. */
  function MaxVersion(stems: seq<string>): (m: nat)
    ensures forall i :: 0 <= i < |stems| && VersionNumber(stems[i]).Some? ==> VersionNumber(stems[i]).value <= m
    ensures m == 0 || exists i :: 0 <= i < |stems| && VersionNumber(stems[i]) == Some(m)
  {
    MaxParsedBounds(stems, VersionNumber);
    MaxParsed(stems, VersionNumber)
  }

  /** The version name `save_student_version` allocates. */
  function NextVersion(stems: seq<string>): string {
    VersionName(MaxVersion(stems) + 1)
  }

  /** No file's version key exceeds `max_version`. */
  lemma VersionKeyAtMost(stems: seq<string>, i: nat)
    requires i < |stems|
    ensures VersionKey(stems[i]) <= MaxVersion(stems)
  {
    MaxParsedBounds(stems, VersionNumber);
    var v := VersionNumber(stems[i]);
    assert v.Some? ==> v.value <= MaxParsed(stems, VersionNumber);
  }

  /** The new version's file reads back as one above the largest version. */
  lemma NextVersionKey(studentId: string, stems: seq<string>)
    ensures VersionNumber(VersionStem(studentId, NextVersion(stems))) == Some(MaxVersion(stems) + 1)
    ensures VersionKey(VersionStem(studentId, NextVersion(stems))) == MaxVersion(stems) + 1
  {
    VersionStemRoundTrip(studentId, MaxVersion(stems) + 1);
  }

  /** The new version's file sorts after every existing file of the
      student, and its number is one above the largest one found. */
  lemma NextVersionIsNewest(studentId: string, stems: seq<string>)
    ensures VersionNumber(VersionStem(studentId, NextVersion(stems))) == Some(MaxVersion(stems) + 1)
    ensures forall i :: 0 <= i < |stems| ==> VersionKey(stems[i]) < VersionKey(VersionStem(studentId, NextVersion(stems)))
  {
    NextVersionKey(studentId, stems);
    forall i | 0 <= i < |stems| ensures VersionKey(stems[i]) <= MaxVersion(stems) {
      VersionKeyAtMost(stems, i);
    }
  }

  /** Whether the write of `save_student_version` succeeds: the data,
      tagged with the next version, goes to that version's file. */
  predicate SavedVersion(studentId: string, data: Dict, stems: seq<string>, save: (string, Dict) -> bool) {
    Writes(studentId, data, NextVersion(stems), save)
  }

  /** Whether writing the data, tagged with `version`, to that version's
      file succeeds. */
  predicate Writes(studentId: string, data: Dict, version: string, save: (string, Dict) -> bool) {
    save(VersionStem(studentId, version), data["_version" := JStr(version)])
  }

  // -----------------------------------------------------------------------
  // Known students

  const BuiltinStudents: map<string, string> := map[
    "current" := "📝 当前编辑中 (实时分析)",
    "zhang" := "Zhang X霸 (模拟-学霸型)",
    "li" := "Li 导演 (模拟-特长型)",
    "wang" := "Wang 逆袭 (模拟-进步型)"
  ]

  /** The student id `get_available_students` reads from a stem: the
      parts between the first and the last, joined by `_`, when there are
      at least three parts and the last is `v` and digits. */
  function ArchiveId(stem: string): (r: Option<string>)
    ensures r.Some? ==> |Split(stem, '_')| >= 3
    ensures r.Some? ==>
      var parts := Split(stem, '_');
      && Split(r.value, '_') == parts[1..|parts| - 1]
      && stem == Join([parts[0]] + Split(r.value, '_') + [parts[|parts| - 1]], '_')
  {
    var parts := Split(stem, '_');
    var v := parts[|parts| - 1];
    if |parts| >= 3 && HasPrefix(v, "v") && IsDigitString(v[1..]) then
      var id := Join(parts[1..|parts| - 1], '_');
      ArchiveIdParts(stem, parts);
      Some(id)
    else None
  }

  /** The middle parts of a stem survive the join into an id, and the stem
      is its head, those parts and its last part joined again. */
  lemma ArchiveIdParts(stem: string, parts: seq<string>)
    requires parts == Split(stem, '_') && |parts| >= 3
    ensures Split(Join(parts[1..|parts| - 1], '_'), '_') == parts[1..|parts| - 1]
    ensures stem == Join([parts[0]] + parts[1..|parts| - 1] + [parts[|parts| - 1]], '_')
  {
    SplitJoin(parts[1..|parts| - 1], '_');
    JoinSplit(stem, '_');
    HeadMiddleLast(parts);
  }

  /** A list of two or more is its first entry, its middle and its last
      entry. */
  lemma HeadMiddleLast<T>(xs: seq<T>)
    requires |xs| >= 2
    ensures [xs[0]] + xs[1..|xs| - 1] + [xs[|xs| - 1]] == xs
  {
  }

  /** A version stem splits into `config`, the id's own parts and the
      version. */
  lemma SplitVersionStem(studentId: string, v: string)
    requires '_' !in v
    ensures Split(VersionStem(studentId, v), '_') == ["config"] + Split(studentId, '_') + [v]
  {
    assert VersionStem(studentId, v) == ("config" + ['_'] + studentId) + ['_'] + v;
    SplitAround("config" + ['_'] + studentId, v, '_');
    SplitAround("config", studentId, '_');
    SplitNoSep("config", '_');
    SplitNoSep(v, '_');
  }

  /** The stem of every saved version gives back its student's id, even an
      id that holds `_`. */
  lemma ArchiveIdOfVersionStem(studentId: string, n: nat)
    ensures ArchiveId(VersionStem(studentId, VersionName(n))) == Some(studentId)
  {
    var d := Decimal(n);
    var v := VersionName(n);
    assert '_' !in v by {
      forall i | 0 <= i < |d| ensures d[i] != '_' { assert IsDigit(d[i]); }
    }
    SplitVersionStem(studentId, v);
    var parts := Split(VersionStem(studentId, v), '_');
    assert parts[1..|parts| - 1] == Split(studentId, '_');
    JoinSplit(studentId, '_');
    assert v[1..] == d;
  }

  // -----------------------------------------------------------------------
  // Competency scores

  datatype Dimension = Dimension(id: string, givenLabel: Option<string>, keywords: seq<string>)

  /** A major's entry of the competency matrix; a missing baseline is 60.
      The baseline is a JSON number, so it may have a fractional part. */
  datatype MajorProfile = MajorProfile(dimensions: seq<Dimension>, baseline: Option<real>)

  /** `matrix.get(major, matrix.get("journalism", {}))`. */
  function ProfileFor(matrix: map<string, MajorProfile>, major: string): MajorProfile {
    if major in matrix then matrix[major]
    else if "journalism" in matrix then matrix["journalism"]
    else MajorProfile([], None)
  }

  function Baseline(p: MajorProfile): real {
    match p.baseline
    case Some(b) => b
    case None => 60.0
  }

  /** Python's `min` of two numbers. */
  function MinReal(a: real, b: real): real { if a <= b then a else b }

  /** `dim_info.get("label", dim_id)`. */
  function LabelOf(d: Dimension): string {
    match d.givenLabel
    case Some(l) => l
    case None => d.id
  }

  /** The number of keywords whose lower-cased form occurs in `text`. */
  function MatchCount(keywords: seq<string>, text: string): (n: nat)
    ensures n <= |keywords|
  {
    if keywords == [] then 0
    else (if Contains(text, Lower(keywords[0])) then 1 else 0) + MatchCount(keywords[1..], text)
  }

  /** Every keyword matches exactly when the count is the number of
      keywords, and none does exactly when it is 0. */
  lemma {:induction false} MatchCountExtremes(keywords: seq<string>, text: string)
    ensures MatchCount(keywords, text) == |keywords| <==> forall i :: 0 <= i < |keywords| ==> Contains(text, Lower(keywords[i]))
    ensures MatchCount(keywords, text) == 0 <==> forall i :: 0 <= i < |keywords| ==> !Contains(text, Lower(keywords[i]))
  {
    if keywords != [] {
      MatchCountExtremes(keywords[1..], text);
      assert forall i :: 1 <= i < |keywords| ==> keywords[i] == keywords[1..][i - 1];
    }
  }

  /** A dimension's score: the baseline plus 5 per matched keyword, at most
      100. */
  function DimScore(d: Dimension, baseline: real, text: string): (s: real)
    ensures s <= 100.0
    ensures s >= MinReal(baseline, 100.0)
    ensures s == 100.0 || s == baseline + 5.0 * MatchCount(d.keywords, text) as real
  {
    MinReal(baseline + 5.0 * MatchCount(d.keywords, text) as real, 100.0)
  }

  /** The scores the dimensions write in order, each to its label. */
  function Scores(dims: seq<Dimension>, baseline: real, text: string): map<string, real> {
    if dims == [] then map[]
    else
      var last := dims[|dims| - 1];
      Scores(dims[..|dims| - 1], baseline, text)[LabelOf(last) := DimScore(last, baseline, text)]
  }

  /** The scores for the student's major, or for journalism when the major
      is not in the matrix. */
  function CompetencyScores(matrix: map<string, MajorProfile>, major: string, serialized: string): map<string, real> {
    var p := ProfileFor(matrix, major);
    Scores(p.dimensions, Baseline(p), Lower(serialized))
  }

  /** There is a score for a label exactly when some dimension has it. */
  lemma {:induction false} ScoresKeys(dims: seq<Dimension>, baseline: real, text: string)
    ensures forall k :: k in Scores(dims, baseline, text) <==> exists i :: 0 <= i < |dims| && LabelOf(dims[i]) == k
  {
    if dims != [] {
      var init := dims[..|dims| - 1];
      ScoresKeys(init, baseline, text);
      assert forall i :: 0 <= i < |init| ==> init[i] == dims[i];
    }
  }

  /** A label's score is that of the last dimension carrying the label. */
  lemma {:induction false} ScoresLastWins(dims: seq<Dimension>, baseline: real, text: string, i: nat)
    requires i < |dims|
    requires forall j :: i < j < |dims| ==> LabelOf(dims[j]) != LabelOf(dims[i])
    ensures LabelOf(dims[i]) in Scores(dims, baseline, text)
    ensures Scores(dims, baseline, text)[LabelOf(dims[i])] == DimScore(dims[i], baseline, text)
  {
    if i < |dims| - 1 {
      var init := dims[..|dims| - 1];
      assert init[i] == dims[i];
      ScoresLastWins(init, baseline, text, i);
    }
  }

  /** No score exceeds 100, and none is below the baseline (capped at
      100). */
  lemma {:induction false} ScoresBounded(dims: seq<Dimension>, baseline: real, text: string)
    ensures forall k :: k in Scores(dims, baseline, text) ==>
      MinReal(baseline, 100.0) <= Scores(dims, baseline, text)[k] <= 100.0
  {
    if dims != [] {
      ScoresBounded(dims[..|dims| - 1], baseline, text);
    }
  }

  // -----------------------------------------------------------------------
  // Competency feedback

  /** A score entry counts as numeric when it is a number or a boolean
      (Python's `bool` is an `int`). */
  function NumericValue(v: JsonValue): Option<real> {
    match v
    case JNum(n) => Some(n)
    case JBool(b) => Some(if b then 1.0 else 0.0)
    case _ => None
  }

  /** The numeric entries of the scores, in order. */
  function NumericScores(scores: seq<(string, JsonValue)>): (r: seq<(string, real)>)
    ensures |r| <= |scores|
  {
    if scores == [] then []
    else
      var v := NumericValue(scores[0].1);
      (if v.Some? then [(scores[0].0, v.value)] else []) + NumericScores(scores[1..])
  }

  /** The index `max(..., key=...)` picks: the first of the largest. */
  function FirstMax(ns: seq<(string, real)>): (i: nat)
    requires ns != []
    ensures i < |ns|
    ensures forall j :: 0 <= j < |ns| ==> ns[j].1 <= ns[i].1
    ensures forall j :: 0 <= j < i ==> ns[j].1 < ns[i].1
  {
    if |ns| == 1 then 0
    else
      var m := FirstMax(ns[..|ns| - 1]);
      if ns[|ns| - 1].1 > ns[m].1 then |ns| - 1 else m
  }

  /** The index `min(..., key=...)` picks: the first of the smallest. */
  function FirstMin(ns: seq<(string, real)>): (i: nat)
    requires ns != []
    ensures i < |ns|
    ensures forall j :: 0 <= j < |ns| ==> ns[i].1 <= ns[j].1
    ensures forall j :: 0 <= j < i ==> ns[i].1 < ns[j].1
  {
    if |ns| == 1 then 0
    else
      var m := FirstMin(ns[..|ns| - 1]);
      if ns[|ns| - 1].1 < ns[m].1 then |ns| - 1 else m
  }

  datatype Feedback = Feedback(highlight: string, suggestion: string)

  function HighlightText(dim: string): string {
    "你在 **" + dim + "** 维度表现卓越，这与你简历中多次提到的项目经历高度契合。"
  }

  function SuggestionText(dim: string): string {
    "检测到 **" + dim + "** 是目前的相对弱项。建议结合 AI Copilot 搜索相关课程资料进行针对性强化。"
  }

  /** The dimensions `get_competency_feedback` names: the first best and
      the first worst numeric score, or None without numeric scores. */
  function Extremes(scores: seq<(string, JsonValue)>): (r: Option<(string, string)>)
    ensures r.None? <==> NumericScores(scores) == []
    ensures r.Some? ==>
      var ns := NumericScores(scores);
      && (exists b {:trigger HighestAt(ns, b)} :: HighestAt(ns, b) && ns[b].0 == r.value.0)
      && (exists w {:trigger LowestAt(ns, w)} :: LowestAt(ns, w) && ns[w].0 == r.value.1)
  {
    var ns := NumericScores(scores);
    if ns == [] then None
    else
      var b, w := FirstMax(ns), FirstMin(ns);
      assert HighestAt(ns, b) && LowestAt(ns, w);
      Some((ns[b].0, ns[w].0))
  }

  /** Entry `b` has a score no other entry exceeds. */
  predicate HighestAt(ns: seq<(string, real)>, b: int) {
    0 <= b < |ns| && forall j :: 0 <= j < |ns| ==> ns[j].1 <= ns[b].1
  }

  /** Entry `w` has a score no other entry is below. */
  predicate LowestAt(ns: seq<(string, real)>, w: int) {
    0 <= w < |ns| && forall j :: 0 <= j < |ns| ==> ns[w].1 <= ns[j].1
  }

  /** `get_competency_feedback`. */
  function CompetencyFeedback(scores: seq<(string, JsonValue)>): Feedback {
    match Extremes(scores)
    case None => Feedback("", "")
    case Some((best, worst)) => Feedback(HighlightText(best), SuggestionText(worst))
  }

  /** The feedback is empty exactly when no score is numeric. */
  lemma FeedbackEmptyIff(scores: seq<(string, JsonValue)>)
    ensures NumericScores(scores) == [] <==> CompetencyFeedback(scores) == Feedback("", "")
  {
    match Extremes(scores)
    case None =>
    case Some((best, _)) =>
      assert |HighlightText(best)| >= |"你在 **"|;
  }

  /** With numeric scores, the highlight names a dimension whose score is
      not below any other, and the suggestion one whose score is not above
      any other. */
  lemma FeedbackNamesExtremes(scores: seq<(string, JsonValue)>)
    requires NumericScores(scores) != []
    ensures var ns := NumericScores(scores);
      exists b, w {:trigger HighestAt(ns, b), LowestAt(ns, w)} ::
        HighestAt(ns, b) && LowestAt(ns, w) && Extremes(scores) == Some((ns[b].0, ns[w].0))
  {
    var ns := NumericScores(scores);
    var b, w := FirstMax(ns), FirstMin(ns);
    assert HighestAt(ns, b) && LowestAt(ns, w);
    assert Extremes(scores) == Some((ns[b].0, ns[w].0));
  }

  /** Entries that are not numbers, such as a stage name, are ignored. */
  lemma {:induction false} NonNumericIgnored(scores: seq<(string, JsonValue)>, key: string, text: string)
    ensures NumericScores(scores + [(key, JStr(text))]) == NumericScores(scores)
  {
    if scores == [] {
      assert NumericScores([(key, JStr(text))]) == [] + NumericScores([]);
    } else {
      NonNumericIgnored(scores[1..], key, text);
      assert (scores + [(key, JStr(text))])[1..] == scores[1..] + [(key, JStr(text))];
    }
  }

  // -----------------------------------------------------------------------
  // The manager

  class DataManager {
    const cvCache: Cache
    const studentCache: Cache

    /** The two caches are distinct dictionaries. */
    ghost predicate Valid()
      reads this
    {
      cvCache != studentCache
    }

    constructor ()
      ensures Valid() && fresh(cvCache) && fresh(studentCache)
      ensures cvCache.entries == map[] && studentCache.entries == map[]
    {
      cvCache := new Cache();
      studentCache := new Cache();
    }

    /** `_get_from_cache`. */
    method GetFromCache(cache: Cache, key: string, now: real) returns (r: Option<Dict>)
      modifies cache
      ensures r == Lookup(old(cache.entries), key, now)
      ensures cache.entries == AfterGet(old(cache.entries), key, now)
    {
      if key in cache.entries {
        var entry := cache.entries[key];
        if !IsExpired(entry, now, CacheTtl) {
          return Some(entry.data);
        }
        cache.entries := cache.entries - {key};
      }
      return None;
    }

    /** `_set_cache`: the key gets a fresh entry; no other key changes. */
    method SetCache(cache: Cache, key: string, data: Dict, now: real)
      modifies cache
      ensures cache.entries == old(cache.entries)[key := CacheEntry(data, now)]
    {
      cache.entries := cache.entries[key := CacheEntry(data, now)];
    }

    /** `clear_cache`. */
    method ClearCache()
      modifies cvCache, studentCache
      ensures cvCache.entries == map[] && studentCache.entries == map[]
    {
      cvCache.entries := map[];
      studentCache.entries := map[];
    }

    /** `load_cv_config`: a hit is served without reading the file; on a
        miss the file's data is returned and cached when not empty. */
    method LoadCvConfig(name: string, now: real, load: string -> Dict) returns (data: Dict)
      requires Valid()
      modifies cvCache
      ensures data == CvConfig(old(cvCache.entries), name, now, load)
      ensures cvCache.entries == CvCacheAfter(old(cvCache.entries), name, now, load)
    {
      var cached := GetFromCache(cvCache, name, now);
      if cached.Some? {
        return cached.value;
      }
      data := load(name);
      if data != map[] {
        SetCache(cvCache, name, data, now);
      }
    }

    /** `load_student_history`: the student's files sorted stably by
        version key, each non-empty one tagged with its version. */
    method LoadStudentHistory(stems: seq<string>, load: string -> Dict) returns (history: seq<Dict>)
      ensures var kept := Kept(SortByKey(stems, VersionKey), load);
        && |history| == |kept|
        && SortedByKey(kept, VersionKey)
        && (forall i :: 0 <= i < |kept| ==> kept[i] in stems && load(kept[i]) != map[])
        && (forall i :: 0 <= i < |history| ==> history[i] == Tagged(load(kept[i]), kept[i]))
    {
      var files := SortByKey(stems, VersionKey);
      history := TagNonEmpty(files, load);
      SortedHistory(stems, load);
    }

    /** The loop of `load_student_history` over the sorted files. */
    method TagNonEmpty(files: seq<string>, load: string -> Dict) returns (history: seq<Dict>)
      ensures history == History(files, load)
    {
      history := [];
      for j := 0 to |files|
        invariant history == History(files[..j], load)
      {
        assert files[..j + 1][..j] == files[..j];
        var data := load(files[j]);
        if data != map[] {
          var version := LastPart(files[j]);
          history := history + [data["_version" := JStr(version)]];
        }
      }
      assert files[..|files|] == files;
    }

    /** The loop of `save_student_version` over the student's files. */
    method FindMaxVersion(stems: seq<string>) returns (maxVersion: nat)
      ensures maxVersion == MaxVersion(stems)
    {
      maxVersion := 0;
      for j := 0 to |stems|
        invariant maxVersion == MaxParsed(stems[..j], VersionNumber)
      {
        assert stems[..j + 1][..j] == stems[..j];
        var vNum := VersionNumber(stems[j]);
        if vNum.Some? && vNum.value > maxVersion {
          maxVersion := vNum.value;
        }
      }
      assert stems[..|stems|] == stems;
    }

    /** `save_student_version`: writes the data tagged with the next
        version; on success drops the student's cache entry and returns the
        version, otherwise returns "". */
    method SaveStudentVersion(studentId: string, data: Dict, stems: seq<string>, save: (string, Dict) -> bool)
      returns (version: string)
      modifies studentCache
      ensures SavedVersion(studentId, data, stems, save) ==>
        version == NextVersion(stems) && studentCache.entries == Evict(old(studentCache.entries), studentId)
      ensures !SavedVersion(studentId, data, stems, save) ==>
        version == "" && studentCache.entries == old(studentCache.entries)
    {
      var ok, next := WriteNextVersion(studentId, data, stems, save);
      if ok {
        studentCache.Discard(studentId);
        version := next;
      } else {
        version := "";
      }
    }

    /** The write of `save_student_version`: the data, tagged with the
        next version, goes to that version's file. */
    method WriteNextVersion(studentId: string, data: Dict, stems: seq<string>, save: (string, Dict) -> bool)
      returns (ok: bool, next: string)
      ensures next == NextVersion(stems)
      ensures ok == SavedVersion(studentId, data, stems, save)
    {
      var maxVersion := FindMaxVersion(stems);
      next := VersionName(maxVersion + 1);
      assert next == NextVersion(stems);
      var toSave := data["_version" := JStr(next)];
      ok := save(VersionStem(studentId, next), toSave);
      assert ok == Writes(studentId, data, next, save);
    }

    /** `get_available_students`: the built-in students with their labels,
        and every id read from an archived stem that is not already
        listed. */
    method GetAvailableStudents(dirExists: bool, stems: seq<string>) returns (students: map<string, string>)
      ensures forall k :: k in BuiltinStudents ==> k in students && students[k] == BuiltinStudents[k]
      ensures forall k :: k in students <==>
        k in BuiltinStudents || (dirExists && exists j :: 0 <= j < |stems| && ArchiveId(stems[j]) == Some(k))
      ensures forall k :: k in students && k !in BuiltinStudents ==> students[k] == k + " (存档记录)"
    {
      students := BuiltinStudents;
      if !dirExists {
        return;
      }
      for j := 0 to |stems|
        invariant forall k :: k in BuiltinStudents ==> k in students && students[k] == BuiltinStudents[k]
        invariant forall k :: k in students <==>
          k in BuiltinStudents || exists i :: 0 <= i < j && ArchiveId(stems[i]) == Some(k)
        invariant forall k :: k in students && k !in BuiltinStudents ==> students[k] == k + " (存档记录)"
      {
        var id := ArchiveId(stems[j]);
        if id.Some? && id.value !in students {
          students := students[id.value := id.value + " (存档记录)"];
        }
      }
    }

    /** `calculate_competency_scores`: the loop over the profile's
        dimensions, writing one score per label. */
    method CalculateCompetencyScores(matrix: map<string, MajorProfile>, major: string, serialized: string)
      returns (scores: map<string, real>)
      ensures scores == CompetencyScores(matrix, major, serialized)
    {
      var p := ProfileFor(matrix, major);
      var dims := p.dimensions;
      var baseline := Baseline(p);
      var text := Lower(serialized);
      scores := map[];
      for i := 0 to |dims|
        invariant scores == Scores(dims[..i], baseline, text)
      {
        assert dims[..i + 1][..i] == dims[..i];
        var dimLabel := LabelOf(dims[i]);
        var matches := MatchCount(dims[i].keywords, text);
        var score := baseline + (matches * 5) as real;
        scores := scores[dimLabel := MinReal(score, 100.0)];
      }
      assert dims[..|dims|] == dims;
    }
  }
}
