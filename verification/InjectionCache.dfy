/** The cache that keeps a rule injection from being repeated: entries age out while it is written,
    and yet it answers like a log that forgets nothing. */
module InjectionCache {
  import opened Wrappers
  import opened Text

  const DEFAULT_TTL_MS := 120_000

  /** `signal` is the digest of the signal text, if there was one. */
  datatype Entry = Entry(at: int, rules: nat, signal: Option<string>)

  /** One call of `remember_injection_for_project_hash_with_signal`, under the time and the TTL it read. */
  datatype Write = Write(key: string, entry: Entry, ttl: int)

  datatype Query = Query(key: string, now: int, ttl: int, signal: Option<string>, skipEmptyHits: bool)

  function MaxTtl(ttl: int): int { if ttl < DEFAULT_TTL_MS then DEFAULT_TTL_MS else ttl }

  /** `cache_entry_should_skip`. */
  predicate EntrySkips(e: Entry, q: Query) {
    && q.now - e.at < q.ttl
    && (e.rules > 0 || q.skipEmptyHits)
    && (q.signal.Some? ==> e.signal == q.signal)
  }

  predicate Skips(e: Option<Entry>, q: Query) { q.ttl > 0 && e.Some? && EntrySkips(e.value, q) }

  // ---- The cache file ---------------------------------------------------------------------------------------

  predicate Outlives(e: Entry, w: Write) { w.entry.at - e.at <= MaxTtl(w.ttl) * 4 }

  class Cache {
    var entries: map<string, Entry>

    constructor ()
      ensures entries == map[]
    {
      entries := map[];
    }

    /** The retain and the insert of a write. */
    method Remember(w: Write)
      modifies this
      ensures entries == Remembered(old(entries), w)
    {
      var todo := entries.Keys;
      ghost var before := entries;
      while todo != {}
        invariant todo <= before.Keys
        invariant entries == map k | k in before && (k in todo || Outlives(before[k], w)) :: before[k]
      {
        var k :| k in todo;
        if !Outlives(entries[k], w) {
          entries := entries - {k};
        }
        todo := todo - {k};
      }
      entries := entries[w.key := w.entry];
    }

    /** `should_skip_recent_for_project_hash_with_signal_inner`. */
    method ShouldSkip(q: Query) returns (skip: bool)
      ensures skip <==> Skips(Lookup(entries, q.key), q)
    {
      if q.ttl <= 0 || q.key !in entries {
        return false;
      }
      var e := entries[q.key];
      if q.now - e.at >= q.ttl || (e.rules == 0 && !q.skipEmptyHits) {
        return false;
      }
      skip := q.signal.None? || e.signal == q.signal;
    }
  }

  function Remembered(entries: map<string, Entry>, w: Write): map<string, Entry> {
    (map k | k in entries && Outlives(entries[k], w) :: entries[k])[w.key := w.entry]
  }

  function Lookup(entries: map<string, Entry>, key: string): Option<Entry> {
    if key in entries then Some(entries[key]) else None
  }

  // ---- Runs and the log -------------------------------------------------------------------------------------------

  /** The cache after these writes. */
  function After(ws: seq<Write>): map<string, Entry> {
    if ws == [] then map[] else Remembered(After(ws[..|ws| - 1]), ws[|ws| - 1])
  }

  /** The last write under a key, never forgotten. */
  function Logged(ws: seq<Write>, key: string): Option<Entry> {
    if ws == [] then None
    else if ws[|ws| - 1].key == key then Some(ws[|ws| - 1].entry)
    else Logged(ws[..|ws| - 1], key)
  }

  /** No write is stamped later than this; among themselves they may be stamped in any order. */
  predicate InTime(ws: seq<Write>, now: int) { forall i :: 0 <= i < |ws| ==> ws[i].entry.at <= now }

  /** Whether some write after the last one under the key found its entry too old. */
  predicate Evicted(ws: seq<Write>, key: string) {
    ws != [] && ws[|ws| - 1].key != key
    && (Evicted(ws[..|ws| - 1], key)
        || (Logged(ws[..|ws| - 1], key).Some? && !Outlives(Logged(ws[..|ws| - 1], key).value, ws[|ws| - 1])))
  }

  /** The cache holds exactly the last writes that were never evicted. */
  lemma {:induction false} CacheIsLog(ws: seq<Write>, key: string)
    ensures Lookup(After(ws), key) == if Evicted(ws, key) then None else Logged(ws, key)
  {
    if ws != [] {
      CacheIsLog(ws[..|ws| - 1], key);
    }
  }

  /** An evicted entry was too old for some write, and is no younger at any later time. */
  lemma {:induction false} EvictedIsOld(ws: seq<Write>, key: string, now: int, floor: int)
    requires InTime(ws, now) && Evicted(ws, key) && forall i :: 0 <= i < |ws| ==> MaxTtl(ws[i].ttl) >= floor
    ensures Logged(ws, key).Some? && now - Logged(ws, key).value.at > 4 * floor
  {
    var front, last := ws[..|ws| - 1], ws[|ws| - 1];
    if Evicted(front, key) {
      EvictedIsOld(front, key, now, floor);
    } else {
      assert ws[|ws| - 1].entry.at <= now && MaxTtl(last.ttl) >= floor;
    }
  }

  predicate Agree(ws: seq<Write>, q: Query) {
    Skips(Lookup(After(ws), q.key), q) <==> Skips(Logged(ws, q.key), q)
  }

  predicate TtlsFrom(ws: seq<Write>, least: int) { forall i :: 0 <= i < |ws| ==> ws[i].ttl >= least }

  /** When exactly one answer differs. */
  lemma DisagreeIffEvictedTooSoon(ws: seq<Write>, q: Query)
    ensures Agree(ws, q) <==> !(Evicted(ws, q.key) && Skips(Logged(ws, q.key), q))
  {
    CacheIsLog(ws, q.key);
  }

  /** MAIN: under one TTL, and after no write stamped later than the query, the cache answers every query as
      the log does. */
  lemma {:induction false} CacheAnswersAsLog(ws: seq<Write>, q: Query)
    requires InTime(ws, q.now) && forall i :: 0 <= i < |ws| ==> ws[i].ttl == q.ttl
    ensures Skips(Lookup(After(ws), q.key), q) <==> Skips(Logged(ws, q.key), q)
  {
    hide After;
    assert TtlsFrom(ws, q.ttl);
    AgreeWithinTtl(ws, q, q.ttl);
  }

  lemma AgreeWithinTtl(ws: seq<Write>, q: Query, least: int)
    requires InTime(ws, q.now) && TtlsFrom(ws, least) && q.ttl <= 4 * MaxTtl(least) + 1
    ensures Agree(ws, q)
  {
    DisagreeIffEvictedTooSoon(ws, q);
    if Evicted(ws, q.key) {
      EvictedIsOld(ws, q.key, q.now, MaxTtl(least));
    }
  }

  ghost predicate AlwaysAgree(least: int, ttl: int) {
    forall ws: seq<Write>, q: Query :: InTime(ws, q.now) && TtlsFrom(ws, least) && q.ttl == ttl ==> Agree(ws, q)
  }

  /** The TTL is read anew at every call. If the writes never read less than `least`, the cache and the
      log agree on all queries with TTL `ttl` exactly up to this bound. */
  lemma TtlBound(least: int, ttl: int)
    ensures AlwaysAgree(least, ttl) <==> ttl <= 4 * MaxTtl(least) + 1
  {
    if ttl <= 4 * MaxTtl(least) + 1 {
      forall ws: seq<Write>, q: Query | InTime(ws, q.now) && TtlsFrom(ws, least) && q.ttl == ttl
        ensures Agree(ws, q)
      {
        AgreeWithinTtl(ws, q, least);
      }
    } else {
      var late := 4 * MaxTtl(least) + 1;
      var first := Write("a", Entry(0, 1, None), least);
      var second := Write("b", Entry(late, 1, None), least);
      var ws, q := [first, second], Query("a", late, ttl, None, false);
      assert ws[..1] == [first] && [first][..0] == [];
      assert "a"[0] != "b"[0];
      assert Logged(ws[..1], "a") == Some(first.entry);
      assert Evicted(ws, "a") && Logged(ws, "a") == Some(first.entry);
      DisagreeIffEvictedTooSoon(ws, q);
      assert InTime(ws, q.now) && TtlsFrom(ws, least) && q.ttl == ttl && !Agree(ws, q);
    }
  }

  /** MAIN: right after a write, a query under the same key within its own TTL skips exactly when the write
      injected some rule (or empty hits count, too) and the query has no signal or the signal of the write. */
  lemma WriteThenQuery(ws: seq<Write>, w: Write, q: Query)
    requires q.key == w.key
    ensures Skips(Lookup(After(ws + [w]), q.key), q) <==>
      && q.ttl > 0 && q.now < w.entry.at + q.ttl
      && (w.entry.rules != 0 || q.skipEmptyHits)
      && (q.signal == None || q.signal == w.entry.signal)
  {
    hide After;
    AfterOneMore(ws, w);
  }

  lemma AfterOneMore(ws: seq<Write>, w: Write)
    ensures After(ws + [w]) == Remembered(After(ws), w)
  {
    assert (ws + [w])[..|ws|] == ws;
  }

  /** An entry survives a later write under another key exactly for four times the TTL in force, or eight
      minutes if that is longer. */
  lemma SurvivesIff(ws: seq<Write>, w: Write, key: string)
    requires key != w.key && Lookup(After(ws), key).Some?
    ensures var e := Lookup(After(ws), key).value;
      Lookup(After(ws + [w]), key) == if w.entry.at - e.at <= (if w.ttl > 120_000 then 4 * w.ttl else 480_000) then Some(e) else None
  {
    hide After;
    AfterOneMore(ws, w);
  }

  // ---- Keys ---------------------------------------------------------------------------------------------------------

  function Normalized(path: string): string
  {
    var t := TrimEnd(TrimStart(path));
    seq(|t|, i requires 0 <= i < |t| => if t[i] == '\\' then '/' else t[i])
  }

  /** `cache_key_for_project_hash`. */
  function Key(path: string, purpose: string, project: string): string {
    project + ":" + purpose + ":" + Normalized(path)
  }

  function FirstColon(s: string): nat { if s == "" || s[0] == ':' then 0 else 1 + FirstColon(s[1..]) }

  lemma {:induction false} ColonAt(a: string, s: string)
    requires ':' !in a
    ensures FirstColon(a + ":" + s) == |a|
  {
    if a != "" {
      ColonAt(a[1..], s);
      assert (a + ":" + s)[1..] == a[1..] + ":" + s;
    }
  }

  lemma ColonSplits(a: string, s: string, b: string, t: string)
    requires ':' !in a && ':' !in b && a + ":" + s == b + ":" + t
    ensures a == b && s == t
  {
    hide FirstColon;
    ColonAt(a, s);
    ColonAt(b, t);
    var x, y := a + ":" + s, b + ":" + t;
    assert a == x[..|a|] && b == y[..|b|];
    assert s == x[|a| + 1..] && t == y[|b| + 1..];
  }

  /** With a colon in one of them, calls for two purposes of two projects share an entry. */
  lemma ColonsCollide(path: string)
    ensures Key(path, "a:b", "p") == Key(path, "b", "p:a")
  {
    var n := Normalized(path);
    assert "p" + ":" + "a:b" == "p:a" + ":" + "b";
  }

  /** Two calls share an entry exactly when they are about the same project, purpose and path. */
  lemma KeysAreDistinct(path: string, purpose: string, project: string, path': string, purpose': string, project': string)
    requires ':' !in purpose && ':' !in project && ':' !in purpose' && ':' !in project'
    ensures Key(path, purpose, project) == Key(path', purpose', project')
      <==> project == project' && purpose == purpose' && Normalized(path) == Normalized(path')
  {
    if Key(path, purpose, project) == Key(path', purpose', project') {
      var s, t := purpose + ":" + Normalized(path), purpose' + ":" + Normalized(path');
      assert Key(path, purpose, project) == project + ":" + s && Key(path', purpose', project') == project' + ":" + t;
      ColonSplits(project, s, project', t);
      ColonSplits(purpose, Normalized(path), purpose', Normalized(path'));
    }
  }

  /** White space around a path and the kind of its slashes do not matter to the key, and nothing else is
      forgiven. */
  lemma SamePathSameKey(path: string, other: string, purpose: string, project: string)
    requires ':' !in purpose && ':' !in project
    ensures var p, q := TrimEnd(TrimStart(path)), TrimEnd(TrimStart(other));
      Key(path, purpose, project) == Key(other, purpose, project) <==>
      |p| == |q| && forall i :: 0 <= i < |p| ==> p[i] == q[i] || (p[i] in "/\\" && q[i] in "/\\")
  {
    hide TrimEnd, TrimStart;
    KeysAreDistinct(path, purpose, project, other, purpose, project);
    var p, q := TrimEnd(TrimStart(path)), TrimEnd(TrimStart(other));
    var m, n := Normalized(path), Normalized(other);
    assert forall i :: 0 <= i < |p| ==> m[i] == if p[i] == '\\' then '/' else p[i];
    assert forall i :: 0 <= i < |q| ==> n[i] == if q[i] == '\\' then '/' else q[i];
    if m == n {
      forall i | 0 <= i < |p|
        ensures p[i] == q[i] || (p[i] in "/\\" && q[i] in "/\\")
      {
        assert m[i] == n[i];
      }
    }
  }
}
