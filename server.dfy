/**
 * The claim step of the `toot_mp3` handler: under the store's lock, pick an
 * unserved toot, mark every toot with the same content as served, and hand
 * that content on to speech synthesis, or the fallback text when nothing is left.
 */
module Server {
  import opened Wrappers
  import opened Toots

  /** The fallback text when `NOT_FOUND_TEXT` is not set. */
  const DefaultNotFoundText: string := "No new toots."

  /** Some toot in `m` with content `c` is still unserved. */
  predicate Claimable(m: map<string, Toot>, c: string)
  {
    exists k :: k in m && !m[k].served && m[k].content == c
  }

  /** Every toot in `m` has been served. */
  predicate AllServed(m: map<string, Toot>)
  {
    forall k :: k in m ==> m[k].served
  }

  /** The toot with its content group `c` marked: served if it was, or if its content is `c`. */
  function Mark(t: Toot, c: string): Toot
  {
    if t.content == c then t.(served := true) else t
  }

  /** The store after the content group `c` has been marked served. */
  function MarkServed(m: map<string, Toot>, c: string): (r: map<string, Toot>)
    ensures r.Keys == m.Keys
    ensures forall k :: k in m ==>
      r[k].id == m[k].id && r[k].content == m[k].content && r[k].createdAt == m[k].createdAt
    ensures forall k :: k in m ==> (r[k].served <==> m[k].served || m[k].content == c)
  {
    map k | k in m :: Mark(m[k], c)
  }

  /** The keys of the toots already served. */
  function ServedKeys(m: map<string, Toot>): set<string>
  {
    set k | k in m && m[k].served
  }

  /** The count the handler logs: how many toots have been served. */
  function ServedCount(m: map<string, Toot>): (n: nat)
    ensures n <= |m|
  {
    SubsetCardinality(ServedKeys(m), m.Keys);
    |ServedKeys(m)|
  }

  lemma {:induction false} SubsetCardinality(a: set<string>, b: set<string>)
    requires a <= b
    ensures |a| <= |b|
    ensures a < b ==> |a| < |b|
  {
    if a != {} {
      var x :| x in a;
      SubsetCardinality(a - {x}, b - {x});
    } else if b != {} {
      var y :| y in b;
      assert |b| >= 1 by {
        assert |b - {y}| + 1 == |b|;
      }
    }
  }

  /** Marking a group that still holds an unserved toot serves at least one more toot. */
  lemma MarkServedIncreasesCount(m: map<string, Toot>, c: string)
    requires Claimable(m, c)
    ensures ServedCount(m) < ServedCount(MarkServed(m, c))
  {
    var r := MarkServed(m, c);
    var k :| k in m && !m[k].served && m[k].content == c;
    assert k in ServedKeys(r) && k !in ServedKeys(m);
    SubsetCardinality(ServedKeys(m), ServedKeys(r));
  }

  /** After a claim of `c`, no toot with content `c` is left to claim; every other claim was already possible. */
  lemma MarkServedClosesGroup(m: map<string, Toot>, c: string, c2: string)
    requires Claimable(MarkServed(m, c), c2)
    ensures c2 != c && Claimable(m, c2)
  {
  }

  /** Marking keeps the store keyed by id. */
  lemma MarkServedKeyedById(m: map<string, Toot>, c: string)
    requires KeyedById(m)
    ensures KeyedById(MarkServed(m, c))
  {
  }

  /**
   * The critical section of `toot_mp3`: finds an unserved toot, marks its
   * content group served and returns the content; returns `None` and changes
   * nothing when every toot has been served. Which unserved toot is found
   * depends on the map's iteration order, so the choice is arbitrary here.
   */
  method TakeUnserved(store: Store) returns (claimed: Option<string>)
    requires store.Valid()
    modifies store
    ensures store.Valid()
    ensures claimed.None? <==> AllServed(old(store.toots))
    ensures claimed.None? ==> store.toots == old(store.toots)
    ensures claimed.Some? ==> Claimable(old(store.toots), claimed.value)
    ensures claimed.Some? ==> store.toots == MarkServed(old(store.toots), claimed.value)
  {
    // Search for an unserved toot (src/server.rs:47-51); the map's order is unspecified, so any key may come first.
    var unvisited := store.toots.Keys;
    claimed := None;
    while unvisited != {} && claimed.None?
      invariant unvisited <= store.toots.Keys
      invariant claimed.None? ==> forall k :: k in store.toots && k !in unvisited ==> store.toots[k].served
      invariant claimed.Some? ==> Claimable(store.toots, claimed.value)
      decreases unvisited
    {
      var k :| k in unvisited;
      if !store.toots[k].served {
        claimed := Some(store.toots[k].content);
      }
      unvisited := unvisited - {k};
    }
    if claimed.None? {
      return;
    }
    // Mark every toot whose content equals the claimed one as served (src/server.rs:53-59).
    var content := claimed.value;
    ghost var before := store.toots;
    var unmarked := store.toots.Keys;
    while unmarked != {}
      invariant unmarked <= before.Keys
      invariant store.toots.Keys == before.Keys
      invariant forall k :: k in before ==> store.toots[k] == if k in unmarked then before[k] else Mark(before[k], content)
      decreases unmarked
    {
      var k :| k in unmarked;
      if store.toots[k].content == content {
        store.toots := store.toots[k := store.toots[k].(served := true)];
      }
      unmarked := unmarked - {k};
    }
    assert store.toots == MarkServed(before, content);
    MarkServedKeyedById(before, content);
  }

  /**
   * The text the handler sends to speech synthesis: the claimed content, or
   * `NOT_FOUND_TEXT` (given as `notFoundEnv`), or "No new toots." when that is unset.
   */
  method TootText(store: Store, notFoundEnv: Option<string>) returns (text: string)
    requires store.Valid()
    modifies store
    ensures store.Valid()
    ensures AllServed(old(store.toots)) ==>
      text == notFoundEnv.GetOr(DefaultNotFoundText) && store.toots == old(store.toots)
    ensures !AllServed(old(store.toots)) ==>
      Claimable(old(store.toots), text) && store.toots == MarkServed(old(store.toots), text)
  {
    var claimed := TakeUnserved(store);
    text := claimed.GetOr(notFoundEnv.GetOr(DefaultNotFoundText));
  }

  /**
   * A single fresh post whose plain text is `"inner"`, ingested into an empty
   * store: the store then holds exactly that toot, unserved; claiming its content
   * serves it, and nothing is left to claim.
   */
  lemma SinglePostScenario(id: string, raw: string, inner: string, now: Timestamp, toPlain: string -> string)
    requires Utf8Len(raw) > MinContentBytes
    requires Quote !in inner && toPlain(raw) == [Quote] + inner + [Quote]
    ensures Cycle(map[], [TootIn(id, raw, now)], now, toPlain) == map[id := Toot(id, inner, now, false)]
    ensures Claimable(map[id := Toot(id, inner, now, false)], inner)
    ensures AllServed(MarkServed(map[id := Toot(id, inner, now, false)], inner))
  {
    var post := TootIn(id, raw, now);
    ExtractBetweenQuotes([], inner, []);
    assert [] + [Quote] + inner + [Quote] + [] == toPlain(raw);
    assert [post][..0] == [];
    assert Filter([post], now) == [post];
    assert TryFromTootIn(post, toPlain) == Ok(Toot(id, inner, now, false));
    assert Ingest(map[], [post], toPlain) == InsertIfAbsent(map[], post, toPlain);
    var m := map[id := Toot(id, inner, now, false)];
    assert id in m && !m[id].served && m[id].content == inner;
  }
}
