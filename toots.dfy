/**
 * The toot records, the normaliser that turns a fetched post into a cached
 * toot, the shared store, and one cycle of the ingestion loop `list`.
 */
module Toots {
  import opened Wrappers

  /** A point in time, in nanoseconds since the Unix epoch (the resolution of `DateTime<Utc>`). */
  type Timestamp = int

  const NanosPerDay: int := 24 * 60 * 60 * 1_000_000_000
  /** Posts older than this many days are not ingested. */
  const RecencyDays: int := 5
  /** Posts whose raw content has this many bytes or fewer are not ingested. */
  const MinContentBytes: nat := 10
  const Quote: char := '"'

  /** A post as decoded from the feed. */
  datatype TootIn = TootIn(id: string, content: string, createdAt: Timestamp)

  /** A cached toot; `served` is the only part that ever changes. */
  datatype Toot = Toot(id: string, content: string, createdAt: Timestamp, served: bool)

  /** The one way normalisation fails: the plain text holds no double quote. */
  datatype ParseError = NoQuote

  // ---------------------------------------------------------------------------
  // Byte length of a string, as Rust's `str::len` counts it (UTF-8)
  // ---------------------------------------------------------------------------

  function Utf8Width(c: char): (w: nat)
    ensures 1 <= w <= 4
    ensures w == 1 <==> c as int < 0x80
  {
    if c as int < 0x80 then 1
    else if c as int < 0x800 then 2
    else if c as int < 0x1_0000 then 3
    else 4
  }

  /** The number of bytes of the UTF-8 encoding of `s`. */
  function Utf8Len(s: string): (n: nat)
    ensures |s| <= n <= 4 * |s|
  {
    if s == [] then 0 else Utf8Width(s[0]) + Utf8Len(s[1..])
  }

  /** An ASCII string has one byte per character. */
  lemma {:induction false} Utf8LenAscii(s: string)
    requires forall i :: 0 <= i < |s| ==> s[i] as int < 0x80
    ensures Utf8Len(s) == |s|
  {
    if s != [] {
      Utf8LenAscii(s[1..]);
    }
  }

  /** The byte length of a concatenation is the sum of the byte lengths. */
  lemma {:induction false} Utf8LenAppend(a: string, b: string)
    ensures Utf8Len(a + b) == Utf8Len(a) + Utf8Len(b)
  {
    if a == [] {
      assert a + b == b;
    } else {
      assert (a + b)[0] == a[0];
      assert (a + b)[1..] == a[1..] + b;
      Utf8LenAppend(a[1..], b);
    }
  }

  // ---------------------------------------------------------------------------
  // Splitting on a character, as Rust's `str::split` with a one-character pattern
  // ---------------------------------------------------------------------------

  /** The number of occurrences of `c` in `s`. */
  function Count(s: string, c: char): (n: nat)
    ensures n <= |s|
    ensures n == 0 <==> c !in s
  {
    if s == [] then 0
    else (if s[0] == c then 1 else 0) + Count(s[1..], c)
  }

  /** The pieces of `s` between successive occurrences of `sep`; never empty. */
  function Split(s: string, sep: char): (pieces: seq<string>)
    ensures |pieces| == Count(s, sep) + 1
    ensures forall i :: 0 <= i < |pieces| ==> sep !in pieces[i]
  {
    if s == [] then [[]]
    else
      var rest := Split(s[1..], sep);
      if s[0] == sep then [[]] + rest
      else [[s[0]] + rest[0]] + rest[1..]
  }

  /** The pieces glued back together with `sep` between them. */
  function Join(pieces: seq<string>, sep: char): string
    requires |pieces| >= 1
  {
    if |pieces| == 1 then pieces[0] else pieces[0] + [sep] + Join(pieces[1..], sep)
  }

  /** Splitting loses nothing: joining the pieces gives back the text. */
  lemma {:induction false} JoinSplit(s: string, sep: char)
    ensures Join(Split(s, sep), sep) == s
  {
    if s != [] {
      var rest := Split(s[1..], sep);
      JoinSplit(s[1..], sep);
      if s[0] != sep {
        if |rest| == 1 {
          assert Split(s, sep) == [[s[0]] + rest[0]];
        } else {
          assert Split(s, sep)[1..] == rest[1..];
          assert Join(Split(s, sep), sep) == [s[0]] + (rest[0] + [sep] + Join(rest[1..], sep));
        }
      }
    }
  }

  /** A text without the separator is a single piece. */
  lemma {:induction false} SplitNoSep(s: string, sep: char)
    requires sep !in s
    ensures Split(s, sep) == [s]
  {
    if s != [] {
      assert s[0] in s;
      SplitNoSep(s[1..], sep);
      assert [s[0]] + s[1..] == s;
    }
  }

  /** The first piece ends at the first separator, and splitting resumes after it. */
  lemma {:induction false} SplitAtFirst(s: string, sep: char, i: nat)
    requires i < |s| && s[i] == sep && sep !in s[..i]
    ensures Split(s, sep) == [s[..i]] + Split(s[i + 1..], sep)
  {
    if i > 0 {
      assert s[1..][..i - 1] == s[1..i];
      assert s[1..][i - 1..] == s[i..];
      SplitAtFirst(s[1..], sep, i - 1);
      assert s[1..][i..] == s[i + 1..];
      assert [s[0]] + s[1..i] == s[..i];
    }
  }

  /** Splitting a join gives back the pieces, when no piece holds the separator. */
  lemma {:induction false} SplitJoin(pieces: seq<string>, sep: char)
    requires |pieces| >= 1
    requires forall i :: 0 <= i < |pieces| ==> sep !in pieces[i]
    ensures Split(Join(pieces, sep), sep) == pieces
  {
    if |pieces| == 1 {
      SplitNoSep(pieces[0], sep);
    } else {
      var s := Join(pieces, sep);
      var n := |pieces[0]|;
      assert s[..n] == pieces[0];
      assert s[n] == sep;
      assert s[n + 1..] == Join(pieces[1..], sep);
      SplitAtFirst(s, sep, n);
      SplitJoin(pieces[1..], sep);
    }
  }

  // ---------------------------------------------------------------------------
  // The normaliser `Toot::try_from_toot_in`
  // ---------------------------------------------------------------------------

  /** The quote-extraction step: the second piece of the text split on `"`. */
  function ExtractQuoted(text: string): (r: Result<string, ParseError>)
    ensures r.Err? <==> Quote !in text
    ensures r.Ok? ==> Quote !in r.value
  {
    var pieces := Split(text, Quote);
    if |pieces| < 2 then Err(NoQuote) else Ok(pieces[1])
  }

  /** With two or more quotes, the extraction yields the text between the first two. */
  lemma ExtractBetweenQuotes(before: string, inner: string, after: string)
    requires Quote !in before && Quote !in inner
    ensures ExtractQuoted(before + [Quote] + inner + [Quote] + after) == Ok(inner)
  {
    var text := before + [Quote] + inner + [Quote] + after;
    var rest := inner + [Quote] + after;
    assert text[..|before|] == before && text[|before| + 1..] == rest;
    SplitAtFirst(text, Quote, |before|);
    assert rest[..|inner|] == inner;
    SplitAtFirst(rest, Quote, |inner|);
  }

  /** With exactly one quote, the extraction yields everything after it. */
  lemma ExtractAfterLoneQuote(before: string, after: string)
    requires Quote !in before && Quote !in after
    ensures ExtractQuoted(before + [Quote] + after) == Ok(after)
  {
    var text := before + [Quote] + after;
    assert text[..|before|] == before && text[|before| + 1..] == after;
    SplitAtFirst(text, Quote, |before|);
    SplitNoSep(after, Quote);
  }

  /** Position of the first `c` in `s`, if any. */
  function IndexOf(s: string, c: char): (r: Option<nat>)
    ensures r.None? <==> c !in s
    ensures r.Some? ==> r.value < |s| && s[r.value] == c && c !in s[..r.value]
  {
    if s == [] then None
    else if s[0] == c then Some(0)
    else match IndexOf(s[1..], c)
      case None => None
      case Some(j) =>
        assert s[..j + 1] == [s[0]] + s[1..][..j];
        Some(j + 1)
  }

  /**
   * An independent reading of the extraction: the text after the first quote,
   * up to the second quote if there is one and to the end otherwise.
   */
  function TextAfterFirstQuote(text: string): Option<string>
  {
    match IndexOf(text, Quote)
    case None => None
    case Some(i) =>
      var after := text[i + 1..];
      match IndexOf(after, Quote)
      case None => Some(after)
      case Some(j) => Some(after[..j])
  }

  /** The split-based extraction agrees with the positional reading on every text. */
  lemma ExtractQuotedIsTextAfterFirstQuote(text: string)
    ensures ExtractQuoted(text).Ok? <==> TextAfterFirstQuote(text).Some?
    ensures ExtractQuoted(text).Ok? ==> ExtractQuoted(text).value == TextAfterFirstQuote(text).value
  {
    match IndexOf(text, Quote)
    case None =>
    case Some(i) =>
      SplitAtFirst(text, Quote, i);
      var after := text[i + 1..];
      match IndexOf(after, Quote)
      case None =>
        SplitNoSep(after, Quote);
      case Some(j) =>
        SplitAtFirst(after, Quote, j);
  }

  /**
   * `Toot::try_from_toot_in`. HTML entity decoding and the conversion to plain
   * text are foreign code, passed in as `toPlain`.
   */
  function TryFromTootIn(t: TootIn, toPlain: string -> string): (r: Result<Toot, ParseError>)
    ensures r.Err? <==> Quote !in toPlain(t.content)
    ensures r.Ok? ==> r.value.id == t.id && r.value.createdAt == t.createdAt && !r.value.served
    ensures r.Ok? ==> Quote !in r.value.content
    ensures r.Ok? ==> Some(r.value.content) == TextAfterFirstQuote(toPlain(t.content))
  {
    ExtractQuotedIsTextAfterFirstQuote(toPlain(t.content));
    match ExtractQuoted(toPlain(t.content))
    case Err(e) => Err(e)
    case Ok(content) => Ok(Toot(t.id, content, t.createdAt, false))
  }

  // ---------------------------------------------------------------------------
  // One ingestion cycle, as functions
  // ---------------------------------------------------------------------------

  /** The recency and length filters of `list`. */
  predicate Admitted(t: TootIn, now: Timestamp)
  {
    t.createdAt > now - RecencyDays * NanosPerDay && Utf8Len(t.content) > MinContentBytes
  }

  /** The posts of the batch that pass the filters, in batch order. */
  function Filter(batch: seq<TootIn>, now: Timestamp): (r: seq<TootIn>)
    ensures |r| <= |batch|
    ensures forall t :: t in r <==> t in batch && Admitted(t, now)
  {
    if batch == [] then []
    else if Admitted(batch[|batch| - 1], now) then
      Filter(batch[..|batch| - 1], now) + [batch[|batch| - 1]]
    else Filter(batch[..|batch| - 1], now)
  }

  /** Filtering a batch in two parts is filtering the whole: the filter keeps batch order. */
  lemma {:induction false} FilterAppend(xs: seq<TootIn>, ys: seq<TootIn>, now: Timestamp)
    ensures Filter(xs + ys, now) == Filter(xs, now) + Filter(ys, now)
  {
    if ys == [] {
      assert xs + ys == xs;
    } else {
      assert (xs + ys)[..|xs + ys| - 1] == xs + ys[..|ys| - 1];
      FilterAppend(xs, ys[..|ys| - 1], now);
    }
  }

  /** The store is keyed by toot id. */
  predicate KeyedById(m: map<string, Toot>)
  {
    forall k :: k in m ==> m[k].id == k
  }

  /** One turn of the loop body: normalise the post and insert it if its id is new. */
  function InsertIfAbsent(m: map<string, Toot>, post: TootIn, toPlain: string -> string): (r: map<string, Toot>)
    ensures forall k :: k in m ==> k in r && r[k] == m[k]
    ensures r.Keys <= m.Keys + {post.id}
    ensures post.id in r <==> post.id in m || TryFromTootIn(post, toPlain).Ok?
    ensures post.id in r && post.id !in m ==> Ok(r[post.id]) == TryFromTootIn(post, toPlain)
  {
    match TryFromTootIn(post, toPlain)
    case Err(_) => m
    case Ok(toot) => if toot.id in m then m else m[toot.id := toot]
  }

  /** The loop body run over `posts` in order. */
  function Ingest(m: map<string, Toot>, posts: seq<TootIn>, toPlain: string -> string): map<string, Toot>
  {
    if posts == [] then m
    else InsertIfAbsent(Ingest(m, posts[..|posts| - 1], toPlain), posts[|posts| - 1], toPlain)
  }

  /** One whole cycle: filter the fetched batch, then ingest what is left. */
  function Cycle(m: map<string, Toot>, batch: seq<TootIn>, now: Timestamp, toPlain: string -> string): map<string, Toot>
  {
    Ingest(m, Filter(batch, now), toPlain)
  }

  // ---------------------------------------------------------------------------
  // Properties of a cycle
  // ---------------------------------------------------------------------------

  /** Ingestion never removes a key and never touches an existing entry, its `served` flag included. */
  lemma {:induction false} IngestKeepsEntries(m: map<string, Toot>, posts: seq<TootIn>, toPlain: string -> string)
    ensures m.Keys <= Ingest(m, posts, toPlain).Keys
    ensures forall k :: k in m ==> Ingest(m, posts, toPlain)[k] == m[k]
  {
    if posts != [] {
      IngestKeepsEntries(m, posts[..|posts| - 1], toPlain);
    }
  }

  /** Every new entry is the normalised form of a post of the batch with that id. */
  lemma {:induction false} IngestNewEntries(m: map<string, Toot>, posts: seq<TootIn>, toPlain: string -> string)
    ensures forall k :: k in Ingest(m, posts, toPlain) && k !in m ==>
      exists i :: 0 <= i < |posts| && posts[i].id == k && TryFromTootIn(posts[i], toPlain) == Ok(Ingest(m, posts, toPlain)[k])
  {
    if posts != [] {
      var init := posts[..|posts| - 1];
      IngestNewEntries(m, init, toPlain);
      forall k | k in Ingest(m, posts, toPlain) && k !in m
        ensures exists i :: 0 <= i < |posts| && posts[i].id == k && TryFromTootIn(posts[i], toPlain) == Ok(Ingest(m, posts, toPlain)[k])
      {
        var before := Ingest(m, init, toPlain);
        if k in before {
          var i :| 0 <= i < |init| && init[i].id == k && TryFromTootIn(init[i], toPlain) == Ok(before[k]);
          assert posts[i] == init[i];
        } else {
          assert posts[|posts| - 1].id == k;
        }
      }
    }
  }

  /**
   * The first post of the batch with a given new id that normalises is the one
   * stored; later posts with that id are ignored.
   */
  lemma FirstWins(m: map<string, Toot>, posts: seq<TootIn>, i: nat, toPlain: string -> string)
    requires i < |posts| && posts[i].id !in m && TryFromTootIn(posts[i], toPlain).Ok?
    requires forall j :: 0 <= j < i && TryFromTootIn(posts[j], toPlain).Ok? ==> posts[j].id != posts[i].id
    ensures posts[i].id in Ingest(m, posts, toPlain)
    ensures Ingest(m, posts, toPlain)[posts[i].id] == TryFromTootIn(posts[i], toPlain).value
  {
    var k := posts[i].id;
    var xs, ys := posts[..i], posts[i + 1..];
    assert posts == xs + [posts[i]] + ys;
    IngestAppend(m, xs + [posts[i]], ys, toPlain);
    IngestAppend(m, xs, [posts[i]], toPlain);
    var before := Ingest(m, xs, toPlain);
    IngestNewEntries(m, xs, toPlain);
    assert forall j :: 0 <= j < |xs| ==> xs[j] == posts[j];
    assert k !in before;
    assert [posts[i]][..0] == [];
    IngestKeepsEntries(Ingest(m, xs + [posts[i]], toPlain), ys, toPlain);
  }

  /** Ingestion keeps the store keyed by id. */
  lemma {:induction false} IngestKeyedById(m: map<string, Toot>, posts: seq<TootIn>, toPlain: string -> string)
    requires KeyedById(m)
    ensures KeyedById(Ingest(m, posts, toPlain))
  {
    if posts != [] {
      IngestKeyedById(m, posts[..|posts| - 1], toPlain);
    }
  }

  /** Ingestion in two parts is ingestion of the whole. */
  lemma {:induction false} IngestAppend(m: map<string, Toot>, xs: seq<TootIn>, ys: seq<TootIn>, toPlain: string -> string)
    ensures Ingest(m, xs + ys, toPlain) == Ingest(Ingest(m, xs, toPlain), ys, toPlain)
  {
    if ys == [] {
      assert xs + ys == xs;
    } else {
      assert (xs + ys)[..|xs + ys| - 1] == xs + ys[..|ys| - 1];
      IngestAppend(m, xs, ys[..|ys| - 1], toPlain);
    }
  }

  /** A post that fails to normalise is skipped: the posts around it are ingested as if it were absent. */
  lemma SkipsUnparsable(m: map<string, Toot>, xs: seq<TootIn>, bad: TootIn, ys: seq<TootIn>, toPlain: string -> string)
    requires TryFromTootIn(bad, toPlain).Err?
    ensures Ingest(m, xs + [bad] + ys, toPlain) == Ingest(m, xs + ys, toPlain)
  {
    IngestAppend(m, xs + [bad], ys, toPlain);
    IngestAppend(m, xs, [bad], toPlain);
    IngestAppend(m, xs, ys, toPlain);
    assert Ingest(Ingest(m, xs, toPlain), [bad], toPlain) == Ingest(m, xs, toPlain) by {
      assert [bad][..0] == [];
    }
  }

  /** After ingestion, every post that normalises has its id in the store. */
  lemma {:induction false} IngestCoversParsed(m: map<string, Toot>, posts: seq<TootIn>, toPlain: string -> string)
    ensures forall i :: 0 <= i < |posts| && TryFromTootIn(posts[i], toPlain).Ok? ==> posts[i].id in Ingest(m, posts, toPlain)
  {
    if posts != [] {
      var init := posts[..|posts| - 1];
      IngestCoversParsed(m, init, toPlain);
      forall i | 0 <= i < |posts| && TryFromTootIn(posts[i], toPlain).Ok?
        ensures posts[i].id in Ingest(m, posts, toPlain)
      {
        if i < |init| {
          assert posts[i] == init[i];
        }
      }
    }
  }

  /** Ingestion changes nothing when every post that normalises already has its id in the store. */
  lemma {:induction false} IngestKnown(m: map<string, Toot>, posts: seq<TootIn>, toPlain: string -> string)
    requires forall i :: 0 <= i < |posts| && TryFromTootIn(posts[i], toPlain).Ok? ==> posts[i].id in m
    ensures Ingest(m, posts, toPlain) == m
  {
    if posts != [] {
      IngestKnown(m, posts[..|posts| - 1], toPlain);
    }
  }

  /**
   * Re-running a cycle on the same batch at the same or a later instant changes
   * nothing: a later clock admits no post the first cycle did not.
   */
  lemma CycleIdempotent(m: map<string, Toot>, batch: seq<TootIn>, now: Timestamp, later: Timestamp, toPlain: string -> string)
    requires now <= later
    ensures Cycle(Cycle(m, batch, now, toPlain), batch, later, toPlain) == Cycle(m, batch, now, toPlain)
  {
    var posts := Filter(batch, now);
    var again := Filter(batch, later);
    var r := Ingest(m, posts, toPlain);
    IngestCoversParsed(m, posts, toPlain);
    forall i | 0 <= i < |again| && TryFromTootIn(again[i], toPlain).Ok?
      ensures again[i].id in r
    {
      assert again[i] in again;
      var j :| 0 <= j < |posts| && posts[j] == again[i];
    }
    IngestKnown(r, again, toPlain);
  }

  /**
   * What a cycle adds: each new entry comes from a post of the batch that is
   * recent and long enough, keeps that post's id and timestamp, is unserved and
   * holds no quote. Existing entries are left as they were.
   */
  lemma CycleAdds(m: map<string, Toot>, batch: seq<TootIn>, now: Timestamp, toPlain: string -> string)
    ensures m.Keys <= Cycle(m, batch, now, toPlain).Keys
    ensures forall k :: k in m ==> Cycle(m, batch, now, toPlain)[k] == m[k]
    ensures forall k :: k in Cycle(m, batch, now, toPlain) && k !in m ==>
      exists t :: t in batch && Admitted(t, now) && t.id == k && TryFromTootIn(t, toPlain) == Ok(Cycle(m, batch, now, toPlain)[k])
    ensures forall k :: k in Cycle(m, batch, now, toPlain) && k !in m ==>
      var toot := Cycle(m, batch, now, toPlain)[k];
      toot.id == k && !toot.served && Quote !in toot.content
  {
    var posts := Filter(batch, now);
    var r := Cycle(m, batch, now, toPlain);
    IngestKeepsEntries(m, posts, toPlain);
    IngestNewEntries(m, posts, toPlain);
    forall k | k in r && k !in m
      ensures exists t :: t in batch && Admitted(t, now) && t.id == k && TryFromTootIn(t, toPlain) == Ok(r[k])
      ensures r[k].id == k && !r[k].served && Quote !in r[k].content
    {
      var i :| 0 <= i < |posts| && posts[i].id == k && TryFromTootIn(posts[i], toPlain) == Ok(r[k]);
      assert posts[i] in posts;
    }
  }

  // ---------------------------------------------------------------------------
  // The shared store and the imperative cycle
  // ---------------------------------------------------------------------------

  /** The map behind `Arc<Mutex<HashMap<String, Toot>>>`. */
  class Store {
    var toots: map<string, Toot>

    ghost predicate Valid()
      reads this
    {
      KeyedById(toots)
    }

    constructor ()
      ensures Valid() && toots == map[]
    {
      toots := map[];
    }
  }

  /**
   * One turn of the `list` loop after the fetch: filter the batch, then insert
   * each post that normalises and whose id is not yet in the store.
   */
  method ListCycle(store: Store, batch: seq<TootIn>, now: Timestamp, toPlain: string -> string)
    requires store.Valid()
    modifies store
    ensures store.Valid()
    ensures store.toots == Cycle(old(store.toots), batch, now, toPlain)
  {
    var resp := Filter(batch, now);
    var i := 0;
    while i < |resp|
      invariant 0 <= i <= |resp|
      invariant store.toots == Ingest(old(store.toots), resp[..i], toPlain)
      invariant store.Valid()
    {
      var post := resp[i];
      i := i + 1;
      assert resp[..i][..i - 1] == resp[..i - 1];
      var parsed := TryFromTootIn(post, toPlain);
      if parsed.Err? {
        continue;
      }
      var toot := parsed.value;
      if toot.id !in store.toots {
        store.toots := store.toots[toot.id := toot];
      }
    }
    assert resp[..i] == resp;
  }
}
