/** The thumbnail prefetch walk run after every catalog refresh: in list
    order, each recording whose thumbnail file does not exist yet gets a
    progress message and a fetched preview written under its key. */
module Prefetch {
  import opened Base
  import opened Catalog
  import Decimal

  /** A cache-path template: a key is the prefix, the filename, then the
      suffix. The walk's properties hold for every template; `Template` is
      the one the application uses. */
  datatype KeyTemplate = KeyTemplate(prefix: string, suffix: string)

  const Template: KeyTemplate := KeyTemplate("/tmp/myth2dsvideo_thumb_", ".png")

  /** The cache path of a recording's thumbnail, templated by filename. */
  function ThumbnailKey(t: KeyTemplate, filename: string): string {
    t.prefix + filename + t.suffix
  }

  /** A cache entry: the preview fetched for a recording, or the empty file
      left behind when the fetch raised after the file had been opened. */
  datatype Thumb = Preview(of: string) | Truncated

  /** Recording `i` is fetched by a walk that meets no failure: its key is
      not cached beforehand and no earlier recording has its filename. */
  predicate Fetchable(t: KeyTemplate, recs: seq<Recording>, cache: map<string, Thumb>, i: nat)
    requires i < |recs|
  {
    && ThumbnailKey(t, recs[i].filename) !in cache
    && forall j :: 0 <= j < i ==> recs[j].filename != recs[i].filename
  }

  /** The 1-based positions, among the first `n` recordings, that a walk
      meeting no failure fetches, in walk order. */
  function Candidates(t: KeyTemplate, recs: seq<Recording>, cache: map<string, Thumb>, n: nat): seq<nat>
    requires n <= |recs|
  {
    if n == 0 then []
    else Candidates(t, recs, cache, n - 1) + (if Fetchable(t, recs, cache, n - 1) then [n] else [])
  }

  /** The keys of the first `n` recordings. */
  function KeysUpTo(t: KeyTemplate, recs: seq<Recording>, n: nat): set<string>
    requires n <= |recs|
  {
    if n == 0 then {} else KeysUpTo(t, recs, n - 1) + {ThumbnailKey(t, recs[n - 1].filename)}
  }

  /** The progress text shown before fetching the recording at 1-based
      position `p` of `n`. */
  function ProgressMessage(p: nat, n: nat): string {
    "Generating preview " + Decimal.FromNat(p) + "/" + Decimal.FromNat(n)
  }

  /** The filename a cache key was templated from. */
  function FilenameOfKey(t: KeyTemplate, k: string): string {
    if |k| >= |t.prefix| + |t.suffix|
    then k[|t.prefix|..|k| - |t.suffix|]
    else k
  }

  lemma FilenameOfKeyInverts(t: KeyTemplate, f: string)
    ensures FilenameOfKey(t, ThumbnailKey(t, f)) == f
  {
    var k := ThumbnailKey(t, f);
    assert k[|t.prefix|..|k| - |t.suffix|] == f;
  }

  lemma ThumbnailKeyInjective(t: KeyTemplate, a: string, b: string)
    requires ThumbnailKey(t, a) == ThumbnailKey(t, b)
    ensures a == b
  {
    var ka, kb := ThumbnailKey(t, a), ThumbnailKey(t, b);
    var n := |t.prefix|;
    assert |a| == |b|;
    assert a == ka[n..n + |a|];
    assert b == kb[n..n + |b|];
  }

  lemma {:induction false} KeysUpToMembership(t: KeyTemplate, recs: seq<Recording>, n: nat, f: string)
    requires n <= |recs|
    ensures ThumbnailKey(t, f) in KeysUpTo(t, recs, n) <==> exists j :: 0 <= j < n && recs[j].filename == f
  {
    if n > 0 {
      KeysUpToMembership(t, recs, n - 1, f);
      if ThumbnailKey(t, f) == ThumbnailKey(t, recs[n - 1].filename) {
        ThumbnailKeyInjective(t, f, recs[n - 1].filename);
      }
    }
  }

  lemma {:induction false} CandidatesPrefix(t: KeyTemplate, recs: seq<Recording>, cache: map<string, Thumb>, m: nat, n: nat)
    requires m <= n <= |recs|
    ensures Candidates(t, recs, cache, m) <= Candidates(t, recs, cache, n)
    decreases n
  {
    if m < n {
      CandidatesPrefix(t, recs, cache, m, n - 1);
    }
  }

  /** The fetched positions are strictly increasing, lie in 1..n, and are
      exactly the positions of fetchable recordings. */
  lemma {:induction false} CandidatesSpec(t: KeyTemplate, recs: seq<Recording>, cache: map<string, Thumb>, n: nat)
    requires n <= |recs|
    ensures forall a, b :: 0 <= a < b < |Candidates(t, recs, cache, n)| ==>
      Candidates(t, recs, cache, n)[a] < Candidates(t, recs, cache, n)[b]
    ensures forall a :: 0 <= a < |Candidates(t, recs, cache, n)| ==> 1 <= Candidates(t, recs, cache, n)[a] <= n
    ensures forall p :: p in Candidates(t, recs, cache, n) <==> 1 <= p <= n && Fetchable(t, recs, cache, p - 1)
    decreases n
  {
    if n > 0 {
      CandidatesSpec(t, recs, cache, n - 1);
    }
  }

  /** No filename is fetched twice, even when filenames repeat. */
  lemma FetchedFilenamesDistinct(t: KeyTemplate, recs: seq<Recording>, cache: map<string, Thumb>, p: nat, q: nat)
    requires p in Candidates(t, recs, cache, |recs|) && q in Candidates(t, recs, cache, |recs|)
    requires p != q
    ensures 1 <= p <= |recs| && 1 <= q <= |recs|
    ensures recs[p - 1].filename != recs[q - 1].filename
  {
    CandidatesSpec(t, recs, cache, |recs|);
    if p < q {
      assert Fetchable(t, recs, cache, q - 1);
    } else {
      assert Fetchable(t, recs, cache, p - 1);
    }
  }

  /** Every recording whose key is not cached beforehand has its filename
      fetched at its first occurrence at or before it. */
  lemma {:induction false} UncachedIsFetched(t: KeyTemplate, recs: seq<Recording>, cache: map<string, Thumb>, i: nat)
    requires i < |recs|
    requires ThumbnailKey(t, recs[i].filename) !in cache
    ensures exists p :: 1 <= p <= i + 1 && p in Candidates(t, recs, cache, |recs|) && recs[p - 1].filename == recs[i].filename
    decreases i
  {
    CandidatesSpec(t, recs, cache, |recs|);
    if Fetchable(t, recs, cache, i) {
      assert i + 1 in Candidates(t, recs, cache, |recs|);
    } else {
      var j :| 0 <= j < i && recs[j].filename == recs[i].filename;
      UncachedIsFetched(t, recs, cache, j);
    }
  }

  lemma CancelHead(h: string, u: string, v: string)
    requires h + u == h + v
    ensures u == v
  {
    assert u == (h + u)[|h|..];
    assert v == (h + v)[|h|..];
  }

  /** In a run of digits followed by a slash, the first slash sits right
      after the digits. */
  lemma FirstSlash(x: string, u: string)
    requires Decimal.AllDigits(x)
    ensures (x + ("/" + u))[|x|] == '/'
    ensures forall i :: 0 <= i < |x| ==> (x + ("/" + u))[i] != '/'
  {
    forall i | 0 <= i < |x|
      ensures (x + ("/" + u))[i] != '/'
    {
      assert Decimal.IsDigit(x[i]);
    }
  }

  /** A run of digits is delimited by the slash after it. */
  lemma DigitsBeforeSlash(x: string, y: string, u: string, v: string)
    requires Decimal.AllDigits(x) && Decimal.AllDigits(y)
    requires x + ("/" + u) == y + ("/" + v)
    ensures x == y
  {
    var m := x + ("/" + u);
    FirstSlash(x, u);
    FirstSlash(y, v);
    assert |x| == |y|;
    assert x == m[..|x|] && y == m[..|y|];
  }

  /** Distinct positions give distinct progress messages. */
  lemma ProgressMessageInjective(a: nat, b: nat, n: nat)
    requires ProgressMessage(a, n) == ProgressMessage(b, n)
    ensures a == b
  {
    var x, y, z := Decimal.FromNat(a), Decimal.FromNat(b), Decimal.FromNat(n);
    var head := "Generating preview ";
    assert ProgressMessage(a, n) == head + (x + ("/" + z));
    assert ProgressMessage(b, n) == head + (y + ("/" + z));
    CancelHead(head, x + ("/" + z), y + ("/" + z));
    DigitsBeforeSlash(x, y, z, z);
    Decimal.FromNatInjective(a, b);
  }

  /** The texts shown during a walk: one progress message per fetch, for
      the fetch's 1-based position among `n` recordings, in order. */
  predicate Announces(shown: seq<string>, progress: seq<nat>, n: nat) {
    && |shown| == |progress|
    && forall j :: 0 <= j < |shown| ==> shown[j] == ProgressMessage(progress[j], n)
  }

  /** Showing the message for one more fetch keeps the texts in step with
      the positions. */
  lemma AnnounceStep(shown: seq<string>, progress: seq<nat>, p: nat, n: nat)
    requires Announces(shown, progress, n)
    ensures Announces(shown + [ProgressMessage(p, n)], progress + [p], n)
  {
    var s', q' := shown + [ProgressMessage(p, n)], progress + [p];
    assert forall j :: 0 <= j < |shown| ==> s'[j] == shown[j] && q'[j] == progress[j];
  }

  /** Messages for strictly increasing positions are pairwise distinct. */
  lemma AnnouncementsDistinct(shown: seq<string>, progress: seq<nat>, n: nat)
    requires Announces(shown, progress, n)
    requires forall a, b :: 0 <= a < b < |progress| ==> progress[a] < progress[b]
    ensures forall a, b :: 0 <= a < b < |shown| ==> shown[a] != shown[b]
  {
    forall a, b | 0 <= a < b < |shown|
      ensures shown[a] != shown[b]
    {
      if shown[a] == shown[b] {
        ProgressMessageInjective(progress[a], progress[b], n);
        assert false;
      }
    }
  }

  /** At step `i` of the walk, the key is already present exactly when the
      recording is not fetchable. */
  lemma WalkStep(t: KeyTemplate, recs: seq<Recording>, cache: map<string, Thumb>, present: set<string>, i: nat)
    requires i < |recs|
    requires present == cache.Keys + KeysUpTo(t, recs, i)
    ensures ThumbnailKey(t, recs[i].filename) !in present <==> Fetchable(t, recs, cache, i)
    ensures KeysUpTo(t, recs, i + 1) == KeysUpTo(t, recs, i) + {ThumbnailKey(t, recs[i].filename)}
  {
    KeysUpToMembership(t, recs, i, recs[i].filename);
  }

  /** The state of a walk that has visited the first `i` recordings
      without a failing fetch. */
  ghost predicate WalkedTo(t: KeyTemplate, recs: seq<Recording>, cache: map<string, Thumb>, failOn: Option<nat>,
                           i: nat, cache': map<string, Thumb>, progress: seq<nat>)
  {
    && i <= |recs|
    && progress == Candidates(t, recs, cache, i)
    && (failOn.None? || failOn.value >= |progress|)
    && (forall j :: 0 <= j < |progress| ==> 1 <= progress[j] <= i)
    && cache'.Keys == cache.Keys + KeysUpTo(t, recs, i)
    && (forall k :: k in cache ==> k in cache' && cache'[k] == cache[k])
    && (forall k :: k in cache' && k !in cache ==> cache'[k] == Preview(FilenameOfKey(t, k)))
  }

  /** The state a walk ends in when the fetch for 1-based position `p`
      raises. */
  ghost predicate AbortedAt(t: KeyTemplate, recs: seq<Recording>, cache: map<string, Thumb>, failOn: Option<nat>,
                            p: nat, cache': map<string, Thumb>, progress: seq<nat>)
  {
    && 1 <= p <= |recs|
    && progress == Candidates(t, recs, cache, p)
    && |progress| > 0 && progress[|progress| - 1] == p
    && failOn == Some(|progress| - 1)
    && (forall j :: 0 <= j < |progress| ==> 1 <= progress[j] <= p)
    && cache'.Keys == cache.Keys + KeysUpTo(t, recs, p)
    && (forall k :: k in cache ==> k in cache' && cache'[k] == cache[k])
    && cache'[ThumbnailKey(t, recs[p - 1].filename)] == Truncated
    && (forall k :: k in cache' && k !in cache && k != ThumbnailKey(t, recs[p - 1].filename) ==>
          cache'[k] == Preview(FilenameOfKey(t, k)))
  }

  /** A recording whose thumbnail already exists is skipped. */
  lemma SkipKeepsWalk(t: KeyTemplate, recs: seq<Recording>, cache: map<string, Thumb>, failOn: Option<nat>,
                      i: nat, cache': map<string, Thumb>, progress: seq<nat>)
    requires i < |recs|
    requires WalkedTo(t, recs, cache, failOn, i, cache', progress)
    requires ThumbnailKey(t, recs[i].filename) in cache'
    ensures WalkedTo(t, recs, cache, failOn, i + 1, cache', progress)
  {
    WalkStep(t, recs, cache, cache'.Keys, i);
  }

  /** A fetch that succeeds stores the preview under the new key. */
  lemma FetchKeepsWalk(t: KeyTemplate, recs: seq<Recording>, cache: map<string, Thumb>, failOn: Option<nat>,
                       i: nat, cache': map<string, Thumb>, progress: seq<nat>)
    requires i < |recs|
    requires WalkedTo(t, recs, cache, failOn, i, cache', progress)
    requires ThumbnailKey(t, recs[i].filename) !in cache'
    requires failOn != Some(|progress|)
    ensures WalkedTo(t, recs, cache, failOn, i + 1,
                     cache'[ThumbnailKey(t, recs[i].filename) := Preview(recs[i].filename)], progress + [i + 1])
  {
    WalkStep(t, recs, cache, cache'.Keys, i);
    FilenameOfKeyInverts(t, recs[i].filename);
  }

  /** A fetch that raises leaves the opened, empty file under its key. */
  lemma FetchAbortsWalk(t: KeyTemplate, recs: seq<Recording>, cache: map<string, Thumb>, failOn: Option<nat>,
                        i: nat, cache': map<string, Thumb>, progress: seq<nat>)
    requires i < |recs|
    requires WalkedTo(t, recs, cache, failOn, i, cache', progress)
    requires ThumbnailKey(t, recs[i].filename) !in cache'
    requires failOn == Some(|progress|)
    ensures AbortedAt(t, recs, cache, failOn, i + 1,
                      cache'[ThumbnailKey(t, recs[i].filename) := Truncated], progress + [i + 1])
  {
    WalkStep(t, recs, cache, cache'.Keys, i);
  }

  /** A walk that visited every recording fetched every candidate. */
  lemma FinishedWalk(t: KeyTemplate, recs: seq<Recording>, cache: map<string, Thumb>, failOn: Option<nat>,
                     cache': map<string, Thumb>, progress: seq<nat>)
    requires WalkedTo(t, recs, cache, failOn, |recs|, cache', progress)
    ensures !(failOn.Some? && failOn.value < |Candidates(t, recs, cache, |recs|)|)
    ensures progress == Candidates(t, recs, cache, |recs|)
    ensures forall j :: 0 <= j < |progress| ==> 1 <= progress[j] <= |recs|
    ensures forall k :: k in cache ==> k in cache' && cache'[k] == cache[k]
    ensures cache'.Keys == cache.Keys + KeysUpTo(t, recs, |recs|)
    ensures forall k :: k in cache' && k !in cache ==> cache'[k] == Preview(FilenameOfKey(t, k))
  {
  }

  /** A walk that stopped at position `p` showed a prefix of the candidates
      ending at the failing fetch. */
  lemma AbortedWalk(t: KeyTemplate, recs: seq<Recording>, cache: map<string, Thumb>, failOn: Option<nat>,
                    p: nat, cache': map<string, Thumb>, progress: seq<nat>)
    requires AbortedAt(t, recs, cache, failOn, p, cache', progress)
    ensures failOn.Some? && failOn.value < |Candidates(t, recs, cache, |recs|)|
    ensures progress == Candidates(t, recs, cache, |recs|)[..failOn.value + 1]
    ensures forall j :: 0 <= j < |progress| ==> 1 <= progress[j] <= |recs|
    ensures forall k :: k in cache ==> k in cache' && cache'[k] == cache[k]
    ensures |progress| > 0 && progress[|progress| - 1] == p
  {
    CandidatesPrefix(t, recs, cache, p, |recs|);
  }
}
