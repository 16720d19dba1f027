/**
 * The log-file analysis of Delopgave_2/logfil-analyse.py: split a log into
 * its lines, sort each line into one of four severity buckets by keyword,
 * and write each bucket to its own file.
 */
module LogAnalysis {
  import opened Wrappers
  import opened Strings
  import opened Files

  // ---------------------------------------------------------------------------
  // read_file
  // ---------------------------------------------------------------------------

  /** The messages of a log text: the stripped text split at newlines. */
  function Messages(text: string): (r: seq<string>)
    ensures |r| >= 1
    ensures forall m :: m in r ==> '\n' !in m
    ensures Join(r, '\n') == Strip(text)
  {
    SplitJoinsBack(Strip(text), '\n');
    Split(Strip(text), '\n')
  }

  /** `read_file(filepath)`; its exceptions are not caught, so they are the error value. */
  function ReadFile(fs: FileSystem, path: string): (r: Result<seq<string>, IoError>)
    ensures r.Ok? <==> ReadText(fs, path).Ok?
    ensures r.Ok? ==> r.value == Messages(ReadText(fs, path).value)
    ensures r.Err? ==> ReadText(fs, path).Err? && r.error == ReadText(fs, path).error
  {
    match ReadText(fs, path)
    case Ok(text) => Ok(Messages(text))
    case Err(e) => Err(e)
  }

  // ---------------------------------------------------------------------------
  // seperate_log_by_type
  // ---------------------------------------------------------------------------

  /** The four buckets, in the order the if/elif chain tests them. */
  datatype Level = Info | Warning | Error | Success

  /** A bucket's dictionary key, which is also the keyword it matches. */
  function Keyword(l: Level): string {
    match l
    case Info => "INFO"
    case Warning => "WARNING"
    case Error => "ERROR"
    case Success => "SUCCESS"
  }

  /** Position in the if/elif chain: a smaller rank is tested first. */
  function Rank(l: Level): nat {
    match l
    case Info => 0
    case Warning => 1
    case Error => 2
    case Success => 3
  }

  /** The message contains the level's keyword. */
  predicate Mentions(m: string, l: Level) {
    Contains(m, Keyword(l))
  }

  predicate HasKeyword(m: string) {
    Mentions(m, Info) || Mentions(m, Warning) || Mentions(m, Error) || Mentions(m, Success)
  }

  /** The level at a position of the if/elif chain. */
  function LevelAt(k: nat): (l: Level)
    requires k < 4
    ensures Rank(l) == k
  {
    [Info, Warning, Error, Success][k]
  }

  /**
   * The bucket a message goes to: the first level whose keyword it contains,
   * or none when it contains no keyword.
   */
  function Classify(m: string): (r: Option<Level>)
    ensures r.None? <==> !HasKeyword(m)
    ensures r.Some? ==> Mentions(m, r.value)
    ensures r.Some? ==> forall l: Level :: Rank(l) < Rank(r.value) ==> !Mentions(m, l)
  {
    if Mentions(m, Info) then Some(Info)
    else if Mentions(m, Warning) then Some(Warning)
    else if Mentions(m, Error) then Some(Error)
    else if Mentions(m, Success) then Some(Success)
    else None
  }

  /** The messages of `log` that go to bucket `l`, in log order. */
  function Bucket(log: seq<string>, l: Level): seq<string> {
    if log == [] then []
    else Bucket(log[..|log| - 1], l) + (if Classify(log[|log| - 1]) == Some(l) then [log[|log| - 1]] else [])
  }

  /** The messages of `log` that contain at least one keyword, in log order. */
  function Matched(log: seq<string>): seq<string> {
    if log == [] then []
    else Matched(log[..|log| - 1]) + (if Classify(log[|log| - 1]).Some? then [log[|log| - 1]] else [])
  }

  /** The keys of the dictionary `seperate_log_by_type` builds. */
  const LogKeys: set<string> := {"INFO", "WARNING", "ERROR", "SUCCESS"}

  lemma BucketSnoc(log: seq<string>, m: string, l: Level)
    ensures Bucket(log + [m], l) == Bucket(log, l) + (if Classify(m) == Some(l) then [m] else [])
  {
    assert (log + [m])[..|log|] == log;
  }

  /** `d` holds each level's bucket of `log` under the level's key, and has no other key. */
  ghost predicate Separated(d: map<string, seq<string>>, log: seq<string>) {
    d.Keys == LogKeys && forall l: Level :: d[Keyword(l)] == Bucket(log, l)
  }

  lemma KeywordsDistinct(l1: Level, l2: Level)
    requires l1 != l2
    ensures Keyword(l1) != Keyword(l2)
  {
    assert Keyword(l1)[0] != Keyword(l2)[0] || |Keyword(l1)| != |Keyword(l2)|;
  }

  /** Appending a message to the key of its level keeps the dictionary in step with the log. */
  lemma SeparatedSnoc(d: map<string, seq<string>>, log: seq<string>, m: string, lv: Level)
    requires Separated(d, log) && Classify(m) == Some(lv)
    ensures Separated(d[Keyword(lv) := d[Keyword(lv)] + [m]], log + [m])
  {
    var d' := d[Keyword(lv) := d[Keyword(lv)] + [m]];
    forall l: Level ensures d'[Keyword(l)] == Bucket(log + [m], l) {
      BucketSnoc(log, m, l);
      if l != lv {
        KeywordsDistinct(l, lv);
      }
    }
    assert Keyword(lv) in LogKeys;
  }

  /** A message with no keyword leaves the dictionary in step with the log. */
  lemma SeparatedSnocUnmatched(d: map<string, seq<string>>, log: seq<string>, m: string)
    requires Separated(d, log) && Classify(m) == None
    ensures Separated(d, log + [m])
  {
    forall l: Level ensures Bucket(log + [m], l) == Bucket(log, l) {
      BucketSnoc(log, m, l);
    }
  }

  /**
   * `seperate_log_by_type(log)`: a dictionary with exactly the four keys, in
   * which each key holds the messages of its bucket.
   */
  method SeparateLogByType(log: seq<string>) returns (d: map<string, seq<string>>)
    ensures d.Keys == LogKeys
    ensures forall l: Level :: d[Keyword(l)] == Bucket(log, l)
  {
    d := map["INFO" := [], "WARNING" := [], "ERROR" := [], "SUCCESS" := []];
    for i := 0 to |log|
      invariant Separated(d, log[..i])
    {
      var message := log[i];
      assert log[..i + 1] == log[..i] + [message];
      if Contains(message, "INFO") {
        SeparatedSnoc(d, log[..i], message, Info);
        d := d["INFO" := d["INFO"] + [message]];
      } else if Contains(message, "WARNING") {
        SeparatedSnoc(d, log[..i], message, Warning);
        d := d["WARNING" := d["WARNING"] + [message]];
      } else if Contains(message, "ERROR") {
        SeparatedSnoc(d, log[..i], message, Error);
        d := d["ERROR" := d["ERROR"] + [message]];
      } else if Contains(message, "SUCCESS") {
        SeparatedSnoc(d, log[..i], message, Success);
        d := d["SUCCESS" := d["SUCCESS"] + [message]];
      } else {
        SeparatedSnocUnmatched(d, log[..i], message);
      }
    }
    assert log[..|log|] == log;
  }

  /**
   * A message is in bucket `l` exactly when it is in the log and its first
   * matching keyword is `l`'s: so a message with "INFO" is only ever in INFO,
   * and one with no keyword is in no bucket.
   */
  lemma {:induction false} BucketMembership(log: seq<string>, l: Level, m: string)
    ensures m in Bucket(log, l) <==> m in log && Classify(m) == Some(l)
  {
    if log != [] {
      var init := log[..|log| - 1];
      BucketMembership(init, l, m);
      assert log == init + [log[|log| - 1]];
    }
  }

  /** Every message in a bucket contains that bucket's key. */
  lemma BucketHasKeyword(log: seq<string>, l: Level)
    ensures forall m :: m in Bucket(log, l) ==> Contains(m, Keyword(l))
  {
    forall m | m in Bucket(log, l) ensures Contains(m, Keyword(l)) {
      BucketMembership(log, l, m);
    }
  }

  /** No message is in two buckets. */
  lemma BucketsDisjoint(log: seq<string>, l1: Level, l2: Level)
    requires l1 != l2
    ensures forall m :: m in Bucket(log, l1) ==> m !in Bucket(log, l2)
  {
    forall m | m in Bucket(log, l1) ensures m !in Bucket(log, l2) {
      BucketMembership(log, l1, m);
      BucketMembership(log, l2, m);
    }
  }

  /**
   * The positions of the log messages that go to bucket `l`, in increasing
   * order: the bucket is the log read at exactly those positions.
   */
  function BucketIndices(log: seq<string>, l: Level): (idx: seq<nat>)
    ensures |idx| == |Bucket(log, l)|
    ensures forall k :: 0 <= k < |idx| ==> idx[k] < |log| && Bucket(log, l)[k] == log[idx[k]]
    ensures forall j, k :: 0 <= j < k < |idx| ==> idx[j] < idx[k]
  {
    if log == [] then []
    else
      var n := |log| - 1;
      var init := log[..n];
      var rest := BucketIndices(init, l);
      assert forall i :: 0 <= i < n ==> log[i] == init[i];
      if Classify(log[n]) == Some(l) then rest + [n] else rest
  }

  /** Each bucket keeps the log's order: it is a subsequence of the log. */
  lemma BucketIsSubsequence(log: seq<string>, l: Level)
    ensures IsSubsequence(Bucket(log, l), log)
  {
    var idx := BucketIndices(log, l);
    assert forall k :: 0 <= k < |idx| ==> idx[k] < |log| && Bucket(log, l)[k] == log[idx[k]];
  }

  /** `a` is `b` read at some increasing positions. */
  ghost predicate IsSubsequence(a: seq<string>, b: seq<string>) {
    exists idx: seq<nat> ::
      |idx| == |a|
      && (forall j, k :: 0 <= j < k < |idx| ==> idx[j] < idx[k])
      && (forall k :: 0 <= k < |idx| ==> idx[k] < |b| && a[k] == b[idx[k]])
  }

  /**
   * The four buckets together hold exactly the messages that contain a
   * keyword, as many times as the log holds them.
   */
  lemma {:induction false} BucketsPartitionMatched(log: seq<string>)
    ensures multiset(Bucket(log, Info)) + multiset(Bucket(log, Warning))
            + multiset(Bucket(log, Error)) + multiset(Bucket(log, Success))
            == multiset(Matched(log))
  {
    if log != [] {
      BucketsPartitionMatched(log[..|log| - 1]);
    }
  }

  /** The bucket lengths add up to the number of messages that contain a keyword. */
  lemma BucketSizes(log: seq<string>)
    ensures |Bucket(log, Info)| + |Bucket(log, Warning)| + |Bucket(log, Error)| + |Bucket(log, Success)|
            == |Matched(log)|
  {
    BucketsPartitionMatched(log);
    assert |multiset(Matched(log))| == |Matched(log)|;
  }

  /** `Matched` keeps exactly the messages that contain a keyword. */
  lemma {:induction false} MatchedMembership(log: seq<string>, m: string)
    ensures m in Matched(log) <==> m in log && HasKeyword(m)
  {
    if log != [] {
      var init := log[..|log| - 1];
      MatchedMembership(init, m);
      assert log == init + [log[|log| - 1]];
    }
  }

  /**
   * `Matched` holds each message that contains a keyword as often as the log
   * does, and no other message.
   */
  lemma {:induction false} MatchedCount(log: seq<string>, m: string)
    ensures multiset(Matched(log))[m] == if HasKeyword(m) then multiset(log)[m] else 0
  {
    if log != [] {
      var init := log[..|log| - 1];
      MatchedCount(init, m);
      assert log == init + [log[|log| - 1]];
    }
  }

  // ---------------------------------------------------------------------------
  // write_dict_to_files
  // ---------------------------------------------------------------------------

  /** The name of the file a key's messages go to: `f"{key.lower()}_log.txt"`. */
  function LogFileName(key: string): string {
    Lower(key) + "_log.txt"
  }

  /** The path a key's messages go to inside `dirpath`. */
  function LogPath(dirpath: string, key: string): string {
    PathJoin(dirpath, LogFileName(key))
  }

  /**
   * Writing the items from the first on: each item's messages, each followed
   * by a newline, replace its file; the first file that cannot be opened
   * raises and stops the loop. The flag says whether every item was written.
   */
  function WriteItems(fs: FileSystem, dirpath: string, items: seq<(string, seq<string>)>): (FileSystem, bool)
    decreases |items|
  {
    if items == [] then (fs, true)
    else
      var path := LogPath(dirpath, items[0].0);
      if IsInaccessible(fs, path) then (fs, false)
      else WriteItems(fs[path := Contents(Terminated(items[0].1))], dirpath, items[1..])
  }

  /** The effect of `write_dict_to_files`, given the dictionary's items in iteration order. */
  function WriteLogFiles(fs: FileSystem, dirpath: string, items: seq<(string, seq<string>)>): (FileSystem, bool)
  {
    if !CanMakeDirs(dirpath) then (fs, false) else WriteItems(fs, dirpath, items)
  }

  /**
   * `write_dict_to_files(data, dirpath)`: the outer loop opens one file per
   * key and the inner loop writes its messages one by one. `items` is
   * `data.items()` in the dictionary's insertion order; `ok` is false when an
   * exception escaped, with the files written before it kept.
   */
  method WriteDictToFiles(items: seq<(string, seq<string>)>, dirpath: string, fs: FileSystem)
    returns (fs': FileSystem, ok: bool)
    ensures (fs', ok) == WriteLogFiles(fs, dirpath, items)
  {
    if !CanMakeDirs(dirpath) {
      return fs, false;
    }
    fs', ok := fs, true;
    var i := 0;
    while i < |items|
      invariant 0 <= i <= |items|
      invariant WriteItems(fs', dirpath, items[i..]) == WriteLogFiles(fs, dirpath, items)
    {
      var (key, messages) := items[i];
      var path := LogPath(dirpath, key);
      assert items[i..][0] == items[i];
      if IsInaccessible(fs', path) {
        return fs', false;
      }
      var buffer := "";
      for j := 0 to |messages|
        invariant buffer == Terminated(messages[..j])
      {
        TerminatedSnoc(messages[..j], messages[j]);
        assert messages[..j + 1] == messages[..j] + [messages[j]];
        buffer := buffer + messages[j] + "\n";
      }
      assert messages[..|messages|] == messages;
      assert items[i..][1..] == items[i + 1..];
      fs' := fs'[path := Contents(buffer)];
      i := i + 1;
    }
    assert items[i..] == [];
  }

  /** The item paths are pairwise different. */
  ghost predicate DistinctPaths(dirpath: string, items: seq<(string, seq<string>)>) {
    forall j, k :: 0 <= j < k < |items| ==> LogPath(dirpath, items[j].0) != LogPath(dirpath, items[k].0)
  }

  /**
   * Every item is written exactly when none of their files is inaccessible,
   * also when two keys go to the same file (`"INFO"` and `"info"`).
   */
  lemma {:induction false} WriteItemsSucceeds(fs: FileSystem, dirpath: string, items: seq<(string, seq<string>)>)
    ensures WriteItems(fs, dirpath, items).1
            <==> forall k :: 0 <= k < |items| ==> !IsInaccessible(fs, LogPath(dirpath, items[k].0))
    decreases |items|
  {
    if items != [] {
      var path := LogPath(dirpath, items[0].0);
      if !IsInaccessible(fs, path) {
        var fs1 := fs[path := Contents(Terminated(items[0].1))];
        var rest := items[1..];
        assert forall k :: 1 <= k < |items| ==> rest[k - 1] == items[k];
        forall k | 0 <= k < |rest|
          ensures IsInaccessible(fs1, LogPath(dirpath, rest[k].0)) <==> IsInaccessible(fs, LogPath(dirpath, rest[k].0))
        {
        }
        WriteItemsSucceeds(fs1, dirpath, rest);
      }
    }
  }

  /** When the items go to different files and all are written, each file holds its item's messages, one per line. */
  lemma {:induction false} WriteItemsContents(fs: FileSystem, dirpath: string, items: seq<(string, seq<string>)>)
    requires DistinctPaths(dirpath, items)
    requires WriteItems(fs, dirpath, items).1
    ensures forall k :: 0 <= k < |items| ==>
              var p := LogPath(dirpath, items[k].0);
              p in WriteItems(fs, dirpath, items).0
              && WriteItems(fs, dirpath, items).0[p] == Contents(Terminated(items[k].1))
    decreases |items|
  {
    if items != [] {
      var path := LogPath(dirpath, items[0].0);
      var fs1 := fs[path := Contents(Terminated(items[0].1))];
      var rest := items[1..];
      assert forall k :: 1 <= k < |items| ==> rest[k - 1] == items[k];
      assert forall k :: 1 <= k < |items| ==> LogPath(dirpath, items[k].0) != path;
      WriteItemsContents(fs1, dirpath, rest);
      WriteItemsUntouched(fs1, dirpath, rest);
    }
  }

  /** `p` is none of the items' paths. */
  ghost predicate OutsideItems(dirpath: string, items: seq<(string, seq<string>)>, p: string) {
    forall k :: 0 <= k < |items| ==> p != LogPath(dirpath, items[k].0)
  }

  /** Writing the items leaves every path that is not one of theirs as it was. */
  lemma {:induction false} WriteItemsUntouched(fs: FileSystem, dirpath: string, items: seq<(string, seq<string>)>)
    ensures forall p :: OutsideItems(dirpath, items, p) ==>
              var fs' := WriteItems(fs, dirpath, items).0;
              (p in fs' <==> p in fs) && (p in fs ==> fs'[p] == fs[p])
    decreases |items|
  {
    if items != [] {
      var path := LogPath(dirpath, items[0].0);
      if !IsInaccessible(fs, path) {
        var fs1 := fs[path := Contents(Terminated(items[0].1))];
        var rest := items[1..];
        assert forall k :: 1 <= k < |items| ==> rest[k - 1] == items[k];
        WriteItemsUntouched(fs1, dirpath, rest);
        forall p | OutsideItems(dirpath, items, p) ensures OutsideItems(dirpath, rest, p) {
        }
      }
    }
  }

  /** The classifier's dictionary as its items, in insertion order. */
  function LogItems(d: map<string, seq<string>>): (items: seq<(string, seq<string>)>)
    requires LogKeys <= d.Keys
    ensures |items| == 4
    ensures forall k :: 0 <= k < 4 ==> items[k] == (Keyword(LevelAt(k)), d[Keyword(LevelAt(k))])
  {
    [("INFO", d["INFO"]), ("WARNING", d["WARNING"]), ("ERROR", d["ERROR"]), ("SUCCESS", d["SUCCESS"])]
  }

  /** A key's file name starts with the key's first character, lower-cased. */
  lemma LogFileNameStart(key: string)
    requires key != []
    ensures LogFileName(key)[0] == LowerChar(key[0])
  {
  }

  /** The four buckets go to four different files. */
  lemma LogPathsDistinct(dirpath: string, l1: Level, l2: Level)
    requires l1 != l2
    ensures LogPath(dirpath, Keyword(l1)) != LogPath(dirpath, Keyword(l2))
  {
    var a, b := LogFileName(Keyword(l1)), LogFileName(Keyword(l2));
    LogFileNameStart(Keyword(l1));
    LogFileNameStart(Keyword(l2));
    if LogPath(dirpath, Keyword(l1)) == LogPath(dirpath, Keyword(l2)) {
      PathJoinInjective(dirpath, a, b);
    }
  }

  /** `p` is none of the four log files' paths. */
  ghost predicate OutsideLog(dirpath: string, p: string) {
    forall l: Level :: p != LogPath(dirpath, Keyword(l))
  }

  /** The classifier's items, in order, go to four different files. */
  lemma LogItemsDistinct(dirpath: string, d: map<string, seq<string>>)
    requires LogKeys <= d.Keys
    ensures DistinctPaths(dirpath, LogItems(d))
  {
    var items := LogItems(d);
    forall j, k | 0 <= j < k < |items|
      ensures LogPath(dirpath, items[j].0) != LogPath(dirpath, items[k].0)
    {
      LogPathsDistinct(dirpath, LevelAt(j), LevelAt(k));
    }
  }

  /** The classifier's items hold each level's keyword and bucket at the level's rank. */
  lemma LogItemsAt(log: seq<string>, d: map<string, seq<string>>)
    requires Separated(d, log)
    ensures forall l: Level :: LogItems(d)[Rank(l)] == (Keyword(l), Bucket(log, l))
  {
    forall l: Level ensures LogItems(d)[Rank(l)] == (Keyword(l), Bucket(log, l)) {
      assert LevelAt(Rank(l)) == l;
    }
  }

  /**
   * Writing the classified log succeeds when the directory can be made and
   * none of the four files is inaccessible.
   */
  lemma WriteClassifiedLogSucceeds(fs: FileSystem, dirpath: string, log: seq<string>, d: map<string, seq<string>>)
    requires Separated(d, log)
    requires CanMakeDirs(dirpath)
    requires forall l: Level :: !IsInaccessible(fs, LogPath(dirpath, Keyword(l)))
    ensures WriteLogFiles(fs, dirpath, LogItems(d)).1
  {
    var items := LogItems(d);
    LogItemsAt(log, d);
    LogItemsDistinct(dirpath, d);
    WriteItemsSucceeds(fs, dirpath, items);
  }

  /**
   * After writing the classified log, each bucket's file holds that bucket's
   * messages in log order, each ending with a newline.
   */
  lemma WriteClassifiedLogContents(fs: FileSystem, dirpath: string, log: seq<string>, d: map<string, seq<string>>)
    requires Separated(d, log)
    requires WriteLogFiles(fs, dirpath, LogItems(d)).1
    ensures forall l: Level :: var p := LogPath(dirpath, Keyword(l));
              var fs' := WriteLogFiles(fs, dirpath, LogItems(d)).0;
              p in fs' && fs'[p] == Contents(Terminated(Bucket(log, l)))
  {
    var items := LogItems(d);
    LogItemsAt(log, d);
    LogItemsDistinct(dirpath, d);
    WriteItemsContents(fs, dirpath, items);
  }

  /** Writing the classified log touches no path but the four log files. */
  lemma WriteClassifiedLogUntouched(fs: FileSystem, dirpath: string, d: map<string, seq<string>>)
    requires LogKeys <= d.Keys
    ensures forall p :: OutsideLog(dirpath, p) ==>
              var fs' := WriteLogFiles(fs, dirpath, LogItems(d)).0;
              (p in fs' <==> p in fs) && (p in fs ==> fs'[p] == fs[p])
  {
    var items := LogItems(d);
    WriteItemsUntouched(fs, dirpath, items);
    forall p | OutsideLog(dirpath, p) ensures OutsideItems(dirpath, items, p) {
      forall k | 0 <= k < |items| ensures p != LogPath(dirpath, items[k].0) {
        assert items[k].0 == Keyword(LevelAt(k));
      }
    }
  }
}
