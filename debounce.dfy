// The request debouncer of backend/main.py: `should_process_request`
// over the module-level `request_cache`, which maps a key
// `"<bulb>:<action>"` to the time (in milliseconds) of the last request it
// let through. The clock `time.time() * 1000` is a parameter.

module Debounce {
  /** `DEBOUNCE_MS`. */
  const DebounceMs: real := 100.0

  /** `f"{bulb_name}:{action}"`. */
  function Key(bulbName: string, action: string): string
  {
    bulbName + ":" + action
  }

  /** A request passes when its key was never let through, or was let
      through at least `DebounceMs` before `now`. */
  predicate Passes(cache: map<string, real>, key: string, now: real)
  {
    key !in cache || now - cache[key] >= DebounceMs
  }

  /** The cache after a request: stamped with `now` when it passed,
      untouched when it was rejected. */
  function After(cache: map<string, real>, key: string, now: real): map<string, real>
  {
    if Passes(cache, key, now) then cache[key := now] else cache
  }

  /** The `request_cache` global and the function that reads and writes it. */
  class RequestDebouncer {
    var requestCache: map<string, real>

    constructor()
      ensures requestCache == map[]
    {
      requestCache := map[];
    }

    /** `should_process_request(bulb_name, action)` at time `now`. */
    method ShouldProcessRequest(bulbName: string, action: string, now: real) returns (accepted: bool)
      modifies this
      ensures accepted <==> Passes(old(requestCache), Key(bulbName, action), now)
      ensures requestCache == After(old(requestCache), Key(bulbName, action), now)
    {
      var key := Key(bulbName, action);
      if key in requestCache {
        if now - requestCache[key] < DebounceMs {
          return false;
        }
      }
      requestCache := requestCache[key := now];
      return true;
    }
  }

  /** The first request for a key passes and stamps the key with its time;
      any request touches its own key only. */
  lemma StepFacts(cache: map<string, real>, key: string, now: real)
    ensures key !in cache ==> Passes(cache, key, now) && After(cache, key, now)[key] == now
    ensures key in After(cache, key, now)
    ensures After(cache, key, now)[key] == (if Passes(cache, key, now) then now else cache[key])
    ensures forall k | k != key :: (k in After(cache, key, now) <==> k in cache) &&
                                   (k in cache ==> After(cache, key, now)[k] == cache[k])
  {
  }

  /** Once a key is let through at `t`, a request for it passes exactly
      when it comes `DebounceMs` or more later: the test is strict. */
  lemma WindowAfterAccept(cache: map<string, real>, key: string, t: real, now: real)
    requires Passes(cache, key, t)
    ensures Passes(After(cache, key, t), key, now) <==> now >= t + DebounceMs
    ensures Passes(After(cache, key, t), key, t + DebounceMs)
  {
  }

  /** A rejected request does not move the window: after a pass at `t` and
      a rejection at `u`, a request at `v` is judged against `t`, so it
      passes at `t + DebounceMs` even though that is less than
      `DebounceMs` after `u`. */
  lemma RejectionKeepsWindow(cache: map<string, real>, key: string, t: real, u: real, v: real)
    requires Passes(cache, key, t)
    requires u < t + DebounceMs && v >= t + DebounceMs
    ensures !Passes(After(cache, key, t), key, u)
    ensures After(After(cache, key, t), key, u) == After(cache, key, t)
    ensures Passes(After(After(cache, key, t), key, u), key, v)
  {
    WindowAfterAccept(cache, key, t, u);
    WindowAfterAccept(cache, key, t, v);
  }

  /** Requests for different bulbs or actions have different keys, as long
      as the actions contain no `:`. */
  lemma KeysSeparate(b1: string, a1: string, b2: string, a2: string)
    requires ':' !in a1 && ':' !in a2
    requires Key(b1, a1) == Key(b2, a2)
    ensures b1 == b2 && a1 == a2
  {
    var k := Key(b1, a1);
    LastColon(b1, a1);
    LastColon(b2, a2);
    assert !(|b1| < |b2|);
    assert !(|b2| < |b1|);
    assert a1 == k[|k| - |a1|..] == a2;
    assert b1 == k[..|b1|] == b2;
  }

  /** The separator is the last `:` of a key whose action has none. */
  lemma LastColon(b: string, a: string)
    requires ':' !in a
    ensures Key(b, a)[|b|] == ':'
    ensures forall i | |b| < i < |Key(b, a)| :: Key(b, a)[i] != ':'
  {
    var k := Key(b, a);
    forall i | |b| < i < |k| ensures k[i] != ':' {
      assert k[i] == a[i - |b| - 1];
    }
  }

  /** An action with a `:` can share a key with another bulb's request,
      and then the two debounce each other. */
  lemma KeysCollide()
    ensures Key("desk:lamp", "on") == Key("desk", "lamp:on")
    ensures !Passes(After(map[], Key("desk:lamp", "on"), 0.0), Key("desk", "lamp:on"), 50.0)
  {
  }
}
