/** The per-URL cooldown table (`url_next_call`) and the pause taken between
    two polling rounds. Clock readings are integer microseconds, the
    resolution of Python's `datetime`. */
module Cooldown {

  /** Request URL to the earliest time it may be requested again. */
  type Table = map<string, int>

  const MicrosPerSecond: int := 1_000_000
  const SecondsPerDay: int := 86400

  /** Every issued request blocks its URL for sixty seconds. */
  const CooldownMicros: int := 60 * MicrosPerSecond

  /** A request is allowed unless its URL has an entry still in the future. */
  predicate MayQuery(table: Table, url: string, now: int) {
    !(url in table && now < table[url])
  }

  /** The table after a request to `url` issued at `now`, whatever its outcome. */
  function Record(table: Table, url: string, now: int): (r: Table)
    ensures r.Keys == table.Keys + {url}
    ensures r[url] == now + CooldownMicros
    ensures forall k :: k in table && k != url ==> r[k] == table[k]
  {
    table[url := now + CooldownMicros]
  }

  /** After a request at `t1` the URL is blocked exactly until `t1` plus the
      cooldown, and other URLs are as allowed as before. */
  lemma CooldownWindow(table: Table, url: string, t1: int, t2: int, other: string)
    requires other != url
    ensures MayQuery(Record(table, url, t1), url, t2) <==> t2 >= t1 + CooldownMicros
    ensures MayQuery(Record(table, url, t1), other, t2) <==> MayQuery(table, other, t2)
  {
  }

  /** `timedelta.seconds` of a positive difference: whole seconds, reduced
      modulo one day as Python's `timedelta` normalises it. */
  function WaitSeconds(diff: int): (r: nat)
    requires diff > 0
    ensures r < SecondsPerDay
    ensures diff < SecondsPerDay * MicrosPerSecond ==>
              r * MicrosPerSecond <= diff < (r + 1) * MicrosPerSecond
    ensures r == 0 <==> diff % (SecondsPerDay * MicrosPerSecond) < MicrosPerSecond
  {
    (diff / MicrosPerSecond) % SecondsPerDay
  }

  /** `k` holds a smallest entry of `table`. */
  ghost predicate IsLowestKey(table: Table, k: string) {
    k in table && forall k' :: k' in table ==> table[k] <= table[k']
  }

  /** What the scheduler does after a round: `min()` of an empty table raises,
      otherwise it sleeps or goes straight to the next round. */
  datatype Wait = EmptyTable | Sleep(seconds: nat) | NoSleep

  /** `min(url_next_call.values())`, located by a linear scan of the keys. */
  method LowestKey(table: Table) returns (lowestKey: string)
    requires table != map[]
    ensures IsLowestKey(table, lowestKey)
  {
    var keys := table.Keys;
    lowestKey :| lowestKey in keys;
    keys := keys - {lowestKey};
    while keys != {}
      invariant keys <= table.Keys
      invariant lowestKey in table
      invariant forall k :: k in table && k !in keys ==> table[lowestKey] <= table[k]
      decreases keys
    {
      var k :| k in keys;
      if table[k] < table[lowestKey] {
        lowestKey := k;
      }
      keys := keys - {k};
    }
  }

  /** The end-of-round pause: find the smallest entry; sleep only when it lies
      after `now` and the truncated wait is positive. */
  method RoundWait(table: Table, now: int) returns (w: Wait)
    ensures w == EmptyTable <==> table == map[]
    ensures w.Sleep? ==>
              w.seconds > 0 &&
              exists k :: IsLowestKey(table, k) && now < table[k] && w.seconds == WaitSeconds(table[k] - now)
    ensures w.NoSleep? ==>
              exists k :: IsLowestKey(table, k) && (table[k] <= now || WaitSeconds(table[k] - now) == 0)
  {
    if table == map[] {
      return EmptyTable;
    }
    var lowestKey := LowestKey(table);
    var lowest := table[lowestKey];
    if now < lowest {
      var seconds := WaitSeconds(lowest - now);
      if seconds > 0 {
        w := Sleep(seconds);
        assert IsLowestKey(table, lowestKey) && now < table[lowestKey] && w.seconds == WaitSeconds(table[lowestKey] - now);
        return;
      }
    }
    w := NoSleep;
    assert IsLowestKey(table, lowestKey) && (table[lowestKey] <= now || WaitSeconds(table[lowestKey] - now) == 0);
  }
}
