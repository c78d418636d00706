/**
 * The access log: most recent entry first, at most `MaxEntries` entries
 * after each decision, and the "granted" statistic shown above it.
 */
module AccessLog {

  import opened Wrappers
  import opened Arith

  datatype Status = Granted | Denied

  /** One decision. `userId` is `null` as `None`; `timestamp` is the clock reading `toISOString` formats. */
  datatype LogEntry = LogEntry(id: string, userId: Option<string>, userName: string, qrCode: string, timestamp: nat, status: Status)

  /** The bound `slice(0, 100)` keeps. */
  const MaxEntries: nat := 100

  /**
   * `[logEntry, ...accessLog].slice(0, 100)`: the new entry in front, then
   * as much of the old log, in its order, as fits in `MaxEntries`.
   */
  function Record(log: seq<LogEntry>, entry: LogEntry): (r: seq<LogEntry>)
    ensures |r| == Min(|log| + 1, MaxEntries) && |r| <= MaxEntries
    ensures r[0] == entry
    ensures r[1..] == log[..|r| - 1]
  {
    ([entry] + log)[..Min(|log| + 1, MaxEntries)]
  }

  /** The log after deciding `entries[0]`, then `entries[1]`, and so on. */
  function RecordAll(log: seq<LogEntry>, entries: seq<LogEntry>): seq<LogEntry>
    decreases |entries|
  {
    if entries == [] then log else RecordAll(Record(log, entries[0]), entries[1..])
  }

  function Reversed<T>(s: seq<T>): (r: seq<T>)
    ensures |r| == |s|
  {
    if s == [] then [] else Reversed(s[1..]) + [s[0]]
  }

  lemma TakeOfTake(a: seq<LogEntry>, b: seq<LogEntry>, m: nat, n: nat)
    requires m <= |b| && n <= |a| + m
    ensures (a + b[..m])[..n] == (a + b)[..n]
  {
  }

  /**
   * After a run of decisions the log holds, most recent first, the newest
   * `MaxEntries` of the new entries followed by the old log.
   */
  lemma {:induction false} RecordAllRetains(log: seq<LogEntry>, entries: seq<LogEntry>)
    requires entries != []
    ensures RecordAll(log, entries) == (Reversed(entries) + log)[..Min(|entries| + |log|, MaxEntries)]
    decreases |entries|
  {
    var e, rest := entries[0], entries[1..];
    var once := Record(log, e);
    assert once == ([e] + log)[..Min(|log| + 1, MaxEntries)];
    if rest == [] {
      assert Reversed(entries) == [e];
    } else {
      RecordAllRetains(once, rest);
      assert Reversed(entries) == Reversed(rest) + [e];
      TakeOfTake(Reversed(rest), [e] + log, Min(|log| + 1, MaxEntries), Min(|entries| + |log|, MaxEntries));
      assert Reversed(rest) + ([e] + log) == Reversed(entries) + log;
    }
  }

  /**
   * Once at least `MaxEntries` decisions are made, the log is exactly the
   * newest `MaxEntries` of them, most recent first.
   */
  lemma RecordAllBounded(log: seq<LogEntry>, entries: seq<LogEntry>)
    requires |entries| >= MaxEntries
    ensures |RecordAll(log, entries)| == MaxEntries
    ensures RecordAll(log, entries) == Reversed(entries)[..MaxEntries]
  {
    RecordAllRetains(log, entries);
    assert (Reversed(entries) + log)[..MaxEntries] == Reversed(entries)[..MaxEntries];
  }

  /** `accessLog.filter(l => l.status === 'granted').length`. */
  function GrantedCount(log: seq<LogEntry>): (n: nat)
    ensures n <= |log|
  {
    if log == [] then 0 else (if log[0].status == Granted then 1 else 0) + GrantedCount(log[1..])
  }

  /** The count is additive over concatenation. */
  lemma {:induction false} GrantedCountConcat(a: seq<LogEntry>, b: seq<LogEntry>)
    ensures GrantedCount(a + b) == GrantedCount(a) + GrantedCount(b)
  {
    if a == [] {
      assert a + b == b;
    } else {
      GrantedCountConcat(a[1..], b);
      assert (a + b)[1..] == a[1..] + b;
    }
  }

  /** The count reaches the length exactly when every entry is a grant, and zero exactly when none is. */
  lemma {:induction false} GrantedCountExtremes(log: seq<LogEntry>)
    ensures GrantedCount(log) == |log| <==> forall k :: 0 <= k < |log| ==> log[k].status == Granted
    ensures GrantedCount(log) == 0 <==> forall k :: 0 <= k < |log| ==> log[k].status == Denied
  {
    if log != [] {
      GrantedCountExtremes(log[1..]);
      assert forall k :: 1 <= k < |log| ==> log[k] == log[1..][k - 1];
    }
  }

  /**
   * One decision adds one to the count when it is a grant and drops the
   * grants among the entries pushed out of the log.
   */
  lemma RecordGrantedCount(log: seq<LogEntry>, entry: LogEntry)
    ensures GrantedCount(Record(log, entry)) ==
      (if entry.status == Granted then 1 else 0) + GrantedCount(log[..Min(|log|, MaxEntries - 1)])
  {
    var r := Record(log, entry);
    assert r == [entry] + log[..Min(|log|, MaxEntries - 1)];
    GrantedCountConcat([entry], log[..Min(|log|, MaxEntries - 1)]);
  }
}
