/** Expansion of the shortened URLs of a Tweet: entities are merged, sorted by their first
    index, and spliced into the UTF-8 buffer one after another. */
module ExpandUrls {
  import opened Basics
  import opened Strings

  datatype Url = Url(start: nat, end: nat, expanded: seq<Scalar>)
  datatype Entities = Entities(urls: seq<Url>, media: seq<Url>)

  datatype Error = InvalidIndices | Overlap | OutOfRange
  datatype Result<+T> = Ok(value: T) | Err(error: Error)

  // ---- Sorting -----------------------------------------------------------------------

  ghost predicate Sorted(us: seq<Url>) {
    us != [] ==> (forall u :: u in us ==> us[0].start <= u.start) && Sorted(us[1..])
  }

  function Insert(u: Url, us: seq<Url>): seq<Url> {
    if us == [] || u.start <= us[0].start then [u] + us else [us[0]] + Insert(u, us[1..])
  }

  function SortByStart(us: seq<Url>): seq<Url> {
    if us == [] then [] else Insert(us[0], SortByStart(us[1..]))
  }

  function IfAt(u: Url, k: nat): seq<Url> {
    if u.start == k then [u] else []
  }

  /** The entities with first index `k`, in order. */
  function StartingAt(us: seq<Url>, k: nat): seq<Url> {
    if us == [] then [] else IfAt(us[0], k) + StartingAt(us[1..], k)
  }

  lemma StartingAtCons(u: Url, us: seq<Url>, k: nat)
    ensures StartingAt([u] + us, k) == IfAt(u, k) + StartingAt(us, k)
  {
    assert ([u] + us)[1..] == us;
  }

  lemma {:induction false} Members(us: seq<Url>, u: Url)
    ensures u in us <==> u in StartingAt(us, u.start)
  {
    if us != [] {
      Members(us[1..], u);
      assert us == [us[0]] + us[1..];
    }
  }

  lemma {:induction false} StartsAt(us: seq<Url>, k: nat)
    ensures forall u :: u in StartingAt(us, k) ==> u in us && u.start == k
  {
    if us != [] {
      StartsAt(us[1..], k);
    }
  }

  lemma {:induction false} InsertIsStable(u: Url, us: seq<Url>, k: nat)
    ensures StartingAt(Insert(u, us), k) == IfAt(u, k) + StartingAt(us, k)
  {
    if us == [] || u.start <= us[0].start {
      StartingAtCons(u, us, k);
    } else {
      InsertIsStable(u, us[1..], k);
      StartingAtCons(us[0], Insert(u, us[1..]), k);
      var x, y, rest := IfAt(us[0], k), IfAt(u, k), StartingAt(us[1..], k);
      assert x == [] || y == [];
      assert x + (y + rest) == y + (x + rest);
    }
  }

  lemma {:induction false} InsertKeepsSorted(u: Url, us: seq<Url>)
    requires Sorted(us)
    ensures Sorted(Insert(u, us))
    ensures forall v :: v in Insert(u, us) ==> v == u || v in us
  {
    if us == [] || u.start <= us[0].start {
      assert ([u] + us)[1..] == us;
    } else {
      InsertKeepsSorted(u, us[1..]);
      assert ([us[0]] + Insert(u, us[1..]))[1..] == Insert(u, us[1..]);
    }
  }

  lemma {:induction false} SortSorts(us: seq<Url>)
    ensures Sorted(SortByStart(us))
    ensures forall v :: v in SortByStart(us) ==> v in us
  {
    if us != [] {
      SortSorts(us[1..]);
      InsertKeepsSorted(us[0], SortByStart(us[1..]));
    }
  }

  lemma {:induction false} SortIsStable(us: seq<Url>, k: nat)
    ensures StartingAt(SortByStart(us), k) == StartingAt(us, k)
  {
    if us != [] {
      SortIsStable(us[1..], k);
      InsertIsStable(us[0], SortByStart(us[1..]), k);
    }
  }

  ghost predicate SameAtEveryStart(a: seq<Url>, b: seq<Url>) {
    forall k: nat :: StartingAt(a, k) == StartingAt(b, k)
  }

  lemma HeadLeads(a: seq<Url>, b: seq<Url>)
    requires Sorted(a) && Sorted(b) && SameAtEveryStart(a, b) && a != []
    ensures b != [] && b[0].start <= a[0].start
  {
    assert a[0] in StartingAt(b, a[0].start);
    StartsAt(b, a[0].start);
  }

  lemma {:induction false} StableSortIsUnique(a: seq<Url>, b: seq<Url>)
    requires Sorted(a) && Sorted(b) && SameAtEveryStart(a, b)
    ensures a == b
  {
    if a != [] {
      HeadLeads(a, b);
      HeadLeads(b, a);
      assert StartingAt(a, a[0].start)[0] == a[0] && StartingAt(b, b[0].start)[0] == b[0];
      assert a == [a[0]] + a[1..] && b == [b[0]] + b[1..];
      forall k: nat
        ensures StartingAt(a[1..], k) == StartingAt(b[1..], k)
      {
        assert StartingAt(a, k) == StartingAt(b, k) && IfAt(a[0], k) == IfAt(b[0], k);
        assert StartingAt(a, k)[|IfAt(a[0], k)|..] == StartingAt(a[1..], k);
        assert StartingAt(b, k)[|IfAt(b[0], k)|..] == StartingAt(b[1..], k);
      }
      StableSortIsUnique(a[1..], b[1..]);
    } else if b != [] {
      HeadLeads(b, a);
    }
  }

  /** The longer list is extended with the shorter one. */
  function Merged(e: Entities): seq<Url> {
    if |e.urls| > |e.media| then e.urls + e.media else e.media + e.urls
  }

  lemma {:induction false} StartingAtConcat(a: seq<Url>, b: seq<Url>, k: nat)
    ensures StartingAt(a + b, k) == StartingAt(a, k) + StartingAt(b, k)
  {
    if a == [] {
      assert a + b == b;
    } else {
      assert (a + b)[1..] == a[1..] + b;
      StartingAtConcat(a[1..], b, k);
    }
  }

  lemma {:induction false} InsertKeepsAll(u: Url, us: seq<Url>)
    ensures multiset(Insert(u, us)) == multiset{u} + multiset(us)
  {
    if us != [] && u.start > us[0].start {
      InsertKeepsAll(u, us[1..]);
      assert us == [us[0]] + us[1..];
    }
  }

  lemma {:induction false} SortKeepsAll(us: seq<Url>)
    ensures multiset(SortByStart(us)) == multiset(us)
  {
    if us != [] {
      SortKeepsAll(us[1..]);
      InsertKeepsAll(us[0], SortByStart(us[1..]));
      assert us == [us[0]] + us[1..];
    }
  }

  /** Every link and every medium takes part, in order; among those that start at one place
      the ones of the longer list come first, media if there are as many links. */
  lemma AllTakePart(e: Entities, k: nat)
    ensures
      var urls := SortByStart(Merged(e));
      && Sorted(urls) && multiset(urls) == multiset(e.urls) + multiset(e.media)
      && StartingAt(urls, k) ==
         if |e.urls| > |e.media| then StartingAt(e.urls, k) + StartingAt(e.media, k)
         else StartingAt(e.media, k) + StartingAt(e.urls, k)
  {
    SortSorts(Merged(e));
    SortKeepsAll(Merged(e));
    SortIsStable(Merged(e), k);
    StartingAtConcat(e.urls, e.media, k);
    StartingAtConcat(e.media, e.urls, k);
  }

  /** When no link starts where a medium does, it does not matter which list is extended. */
  lemma MergeOrderDoesNotMatter(a: seq<Url>, b: seq<Url>)
    requires forall u, v :: u in a && v in b ==> u.start != v.start
    ensures SortByStart(a + b) == SortByStart(b + a)
  {
    SortSorts(a + b);
    SortSorts(b + a);
    forall k: nat
      ensures StartingAt(SortByStart(a + b), k) == StartingAt(SortByStart(b + a), k)
    {
      SameStarts(a, b, k);
    }
    StableSortIsUnique(SortByStart(a + b), SortByStart(b + a));
  }

  lemma SameStarts(a: seq<Url>, b: seq<Url>, k: nat)
    requires forall u, v :: u in a && v in b ==> u.start != v.start
    ensures StartingAt(SortByStart(a + b), k) == StartingAt(SortByStart(b + a), k)
  {
    SortIsStable(a + b, k);
    SortIsStable(b + a, k);
    StartingAtConcat(a, b, k);
    StartingAtConcat(b, a, k);
    OneIsEmpty(a, b, k);
  }

  lemma {:induction false} NoneStart(us: seq<Url>, k: nat)
    requires forall u :: u in us ==> u.start != k
    ensures StartingAt(us, k) == []
  {
    if us != [] {
      NoneStart(us[1..], k);
    }
  }

  lemma OneIsEmpty(a: seq<Url>, b: seq<Url>, k: nat)
    requires forall u, v :: u in a && v in b ==> u.start != v.start
    ensures StartingAt(a, k) == [] || StartingAt(b, k) == []
  {
    if u :| u in a && u.start == k {
      NoneStart(b, k);
    } else {
      NoneStart(a, k);
    }
  }

  // ---- Splicing ----------------------------------------------------------------------

  /** The entities are in order, disjoint, and within the text from `from` on. */
  ghost predicate Fits(us: seq<Url>, from: nat, n: nat) {
    if us == [] then from <= n
    else from <= us[0].start <= us[0].end && Fits(us[1..], us[0].end, n)
  }

  /** The text from `from` on, with every entity replaced. */
  function Splice(cs: seq<Scalar>, us: seq<Url>, from: nat): seq<Scalar>
    requires Fits(us, from, |cs|)
  {
    if us == [] then cs[from..]
    else
      FitsWithin(us, from, |cs|);
      cs[from..us[0].start] + us[0].expanded + Splice(cs, us[1..], us[0].end)
  }

  lemma FitsWithin(us: seq<Url>, from: nat, n: nat)
    requires Fits(us, from, n)
    ensures from <= n && forall u :: u in us ==> from <= u.start <= u.end <= n
  {
  }

  /** The plain way to do it: replace in the whole text, from the last entity backwards, so
      that no index ever moves. */
  function ReplaceBackwards(cs: seq<Scalar>, us: seq<Url>): seq<Scalar>
    requires Fits(us, 0, |cs|)
    decreases |us|
  {
    if us == [] then cs
    else
      var u := us[|us| - 1];
      FitsWithin(us, 0, |cs|);
      FitsInit(cs, us, 0);
      ReplaceBackwards(Replace(cs, u), us[..|us| - 1])
  }

  function Replace(cs: seq<Scalar>, u: Url): seq<Scalar>
    requires u.start <= u.end <= |cs|
  {
    cs[..u.start] + u.expanded + cs[u.end..]
  }

  lemma LastFits(us: seq<Url>, from: nat, n: nat)
    requires us != [] && Fits(us, from, n)
    ensures var u := us[|us| - 1]; from <= us[0].start <= u.start <= u.end <= n
  {
    FitsWithin(us, from, n);
    FitsWithin(us, us[0].start, n);
    assert us[|us| - 1] in us;
  }

  lemma InitOfTail(us: seq<Url>)
    requires |us| > 1
    ensures us[1..][..|us| - 2] == us[..|us| - 1][1..]
    ensures us[1..][|us| - 2] == us[|us| - 1] && us[..|us| - 1][0] == us[0]
  {
  }

  lemma ReplaceKeepsPrefix(cs: seq<Scalar>, u: Url, from: nat, to: nat)
    requires from <= to <= u.start <= u.end <= |cs|
    ensures Replace(cs, u)[from..to] == cs[from..to]
    ensures Replace(cs, u)[from..] == cs[from..u.start] + u.expanded + cs[u.end..]
  {
    assert forall i :: from <= i < to ==> Replace(cs, u)[i] == cs[i];
  }

  lemma {:induction false} FitsInit(cs: seq<Scalar>, us: seq<Url>, from: nat)
    requires us != [] && Fits(us, from, |cs|)
    ensures var u := us[|us| - 1]; from <= u.start <= u.end <= |cs|
    ensures Fits(us[..|us| - 1], from, |Replace(cs, us[|us| - 1])|)
    ensures Splice(Replace(cs, us[|us| - 1]), us[..|us| - 1], from) == Splice(cs, us, from)
  {
    var u := us[|us| - 1];
    LastFits(us, from, |cs|);
    ReplaceKeepsPrefix(cs, u, from, us[0].start);
    if |us| == 1 {
      assert us[1..] == [] && us[..0] == [];
    } else {
      FitsInit(cs, us[1..], us[0].end);
      InitOfTail(us);
    }
  }

  /** Left to right with a moving offset, and right to left without one, are the same. */
  lemma {:induction false} SpliceIsReplacement(cs: seq<Scalar>, us: seq<Url>)
    requires Fits(us, 0, |cs|)
    ensures Splice(cs, us, 0) == ReplaceBackwards(cs, us)
    decreases |us|
  {
    if us != [] {
      FitsWithin(us, 0, |cs|);
      FitsInit(cs, us, 0);
      SpliceIsReplacement(Replace(cs, us[|us| - 1]), us[..|us| - 1]);
    }
  }

  /** By how many characters the entities make the text longer. */
  function Growth(us: seq<Url>): int {
    if us == [] then 0 else |us[0].expanded| - (us[0].end - us[0].start) + Growth(us[1..])
  }

  /** In `out`, where the text from `from` on starts at `at`, each entity shows expanded, moved
      by what was expanded before it, and between the entities the text is as it was. */
  ghost predicate Shows(out: seq<Scalar>, cs: seq<Scalar>, us: seq<Url>, from: nat, at: nat)
    requires Fits(us, from, |cs|)
    decreases |us|
  {
    if us == [] then at <= |out| && out[at..] == cs[from..]
    else
      var u := us[0];
      FitsWithin(us, from, |cs|);
      var here := at + (u.start - from);
      var next := here + |u.expanded|;
      && next <= |out|
      && out[at..here] == cs[from..u.start]
      && out[here..next] == u.expanded
      && Shows(out, cs, us[1..], u.end, next)
  }

  lemma {:induction false} SpliceGrows(cs: seq<Scalar>, us: seq<Url>, from: nat)
    requires Fits(us, from, |cs|)
    ensures |Splice(cs, us, from)| == |cs| - from + Growth(us)
    decreases |us|
  {
    if us != [] {
      FitsWithin(us, from, |cs|);
      SpliceGrows(cs, us[1..], us[0].end);
    }
  }

  lemma {:induction false} SpliceShows(out: seq<Scalar>, before: seq<Scalar>, cs: seq<Scalar>, us: seq<Url>, from: nat)
    requires Fits(us, from, |cs|) && out == before + Splice(cs, us, from)
    ensures Shows(out, cs, us, from, |before|)
    decreases |us|
  {
    if us == [] {
      assert out[|before|..] == cs[from..];
    } else {
      FitsWithin(us, from, |cs|);
      var u := us[0];
      var gap, rest := cs[from..u.start], Splice(cs, us[1..], u.end);
      Joined(before, gap, u.expanded, rest);
      SpliceShows(out, before + gap + u.expanded, cs, us[1..], u.end);
    }
  }

  /** There is only one text that shows the entities so. */
  lemma {:induction false} OnlyOneShows(a: seq<Scalar>, b: seq<Scalar>,
                                        cs: seq<Scalar>, us: seq<Url>, from: nat, at: nat)
    requires Fits(us, from, |cs|) && at <= |a| && at <= |b| && a[..at] == b[..at]
    requires Shows(a, cs, us, from, at) && Shows(b, cs, us, from, at)
    ensures a == b
    decreases |us|
  {
    if us == [] {
      assert a == a[..at] + a[at..] && b == b[..at] + b[at..];
    } else {
      FitsWithin(us, from, |cs|);
      var here := at + (us[0].start - from);
      var next := here + |us[0].expanded|;
      SameUpTo(a, b, at, here, next);
      OnlyOneShows(a, b, cs, us[1..], us[0].end, next);
    }
  }

  lemma SameUpTo(a: seq<Scalar>, b: seq<Scalar>, i: nat, j: nat, k: nat)
    requires i <= j <= k <= |a| && k <= |b| && a[..i] == b[..i] && a[i..j] == b[i..j] && a[j..k] == b[j..k]
    ensures a[..k] == b[..k]
  {
    assert a[..k] == a[..i] + a[i..j] + a[j..k] && b[..k] == b[..i] + b[i..j] + b[j..k];
  }

  lemma Joined(before: seq<Scalar>, gap: seq<Scalar>, expanded: seq<Scalar>, rest: seq<Scalar>)
    ensures
      var out := before + (gap + expanded + rest);
      && out == before + gap + expanded + rest
      && out[|before|..|before| + |gap|] == gap
      && out[|before| + |gap|..|before| + |gap| + |expanded|] == expanded
  {
  }

  // ---- The loop ----------------------------------------------------------------------

  /** What the loop makes of the entities from the `i`-th on when it has consumed `from`
      characters and produced `done`. The overlap test compares a character index with the
      number of bytes produced. */
  function Expand(cs: seq<Scalar>, us: seq<Url>, i: nat, from: nat, done: seq<Scalar>): Result<seq<Scalar>>
    requires i <= |us| && from <= |cs|
    decreases |us| - i
  {
    if i == |us| then Ok(done + cs[from..])
    else
      var u := us[i];
      if u.start > u.end then Err(InvalidIndices)
      else if u.end < ByteLen(done) then Err(Overlap)
      else if u.start < from || |cs| < u.end then Err(OutOfRange)
      else Expand(cs, us, i + 1, u.end, done + (cs[from..u.start] + u.expanded))
  }

  /** No entity ends, counted in characters, before the end of what was produced before it,
      counted in bytes. */
  ghost predicate NeverMistaken(cs: seq<Scalar>, us: seq<Url>, from: nat, bytes: nat)
    requires Fits(us, from, |cs|)
  {
    if us == [] then true
    else
      FitsWithin(us, from, |cs|);
      && bytes <= us[0].end
      && NeverMistaken(cs, us[1..], us[0].end, bytes + ByteLen(cs[from..us[0].start] + us[0].expanded))
  }

  /** `r` is `done` and the splice of `rest`, if `rest` fits and the overlap test is never
      mistaken, and an error otherwise. */
  ghost predicate IsSplice(r: Result<seq<Scalar>>, cs: seq<Scalar>, rest: seq<Url>, from: nat, done: seq<Scalar>) {
    && (r.Ok? <==> Fits(rest, from, |cs|) && NeverMistaken(cs, rest, from, ByteLen(done)))
    && (r.Ok? ==> r == Ok(done + Splice(cs, rest, from)))
  }

  lemma IsSpliceWithOneMore(r: Result<seq<Scalar>>, cs: seq<Scalar>, rest: seq<Url>, from: nat, done: seq<Scalar>)
    requires rest != [] && from <= rest[0].start <= rest[0].end <= |cs| && ByteLen(done) <= rest[0].end
    requires IsSplice(r, cs, rest[1..], rest[0].end, done + (cs[from..rest[0].start] + rest[0].expanded))
    ensures IsSplice(r, cs, rest, from, done)
  {
    var u := rest[0];
    var piece := cs[from..u.start] + u.expanded;
    ByteLenConcat(done, piece);
    if Fits(rest[1..], u.end, |cs|) {
      Associative(done, piece, Splice(cs, rest[1..], u.end));
    }
  }

  /** For every text and every list of entities, sorted or not: the result is the splice, and
      there is one exactly when the entities fit and the overlap test is never mistaken. */
  lemma {:induction false} ExpandIsSplice(cs: seq<Scalar>, us: seq<Url>, i: nat, from: nat, done: seq<Scalar>)
    requires i <= |us| && from <= |cs|
    ensures IsSplice(Expand(cs, us, i, from, done), cs, us[i..], from, done)
    decreases |us| - i
  {
    if i < |us| {
      var u, r, rest := us[i], Expand(cs, us, i, from, done), us[i..];
      assert rest[0] == u && rest[1..] == us[i + 1..];
      if from <= u.start <= u.end <= |cs| && ByteLen(done) <= u.end {
        ExpandIsSplice(cs, us, i + 1, u.end, done + (cs[from..u.start] + u.expanded));
        IsSpliceWithOneMore(r, cs, rest, from, done);
      } else if Fits(rest, from, |cs|) {
        FitsWithin(rest, from, |cs|);
      }
    }
  }

  /** Where the entity before the `k`-th one ends. */
  function Consumed(us: seq<Url>, i: nat, from: nat, k: nat): nat
    requires i <= k < |us|
  {
    if k == i then from else us[k - 1].end
  }

  /** Each error names what is wrong with some entity; well-placed ones can only be taken to
      overlap. */
  lemma {:induction false} ErrorsHaveCauses(cs: seq<Scalar>, us: seq<Url>, i: nat, from: nat, done: seq<Scalar>)
    requires i <= |us| && from <= |cs|
    ensures Expand(cs, us, i, from, done) == Err(InvalidIndices) ==>
      exists k :: i <= k < |us| && us[k].start > us[k].end
    ensures Expand(cs, us, i, from, done) == Err(OutOfRange) ==>
      exists k :: i <= k < |us| && (us[k].end > |cs| || us[k].start < Consumed(us, i, from, k))
    ensures Fits(us[i..], from, |cs|) && Expand(cs, us, i, from, done).Err? ==>
      Expand(cs, us, i, from, done) == Err(Overlap)
    decreases |us| - i
  {
    if i < |us| {
      var u := us[i];
      assert us[i..][0] == u && us[i..][1..] == us[i + 1..];
      if Fits(us[i..], from, |cs|) {
        FitsWithin(us[i..], from, |cs|);
      }
      assert Consumed(us, i, from, i) == from;
      if from <= u.start <= u.end <= |cs| && ByteLen(done) <= u.end {
        ErrorsHaveCauses(cs, us, i + 1, u.end, done + (cs[from..u.start] + u.expanded));
        assert forall k :: i + 1 <= k < |us| ==> Consumed(us, i + 1, u.end, k) == Consumed(us, i, from, k);
      }
    }
  }

  lemma Expansion(cs: seq<Scalar>, us: seq<Url>)
    ensures
      var r := Expand(cs, us, 0, 0, []);
      && (r.Ok? <==> Fits(us, 0, |cs|) && NeverMistaken(cs, us, 0, 0))
      && (r.Ok? ==> r.value == ReplaceBackwards(cs, us))
  {
    ExpandIsSplice(cs, us, 0, 0, []);
    assert us[0..] == us;
    if Fits(us, 0, |cs|) {
      SpliceIsReplacement(cs, us);
      assert [] + Splice(cs, us, 0) == Splice(cs, us, 0);
    }
  }

  /** Two well-placed URLs, the first of which grows by four characters: rejected. */
  lemma ValidEntitiesCanBeRejected()
    ensures
      var us := [Url(0, 1, [65, 65, 65, 65, 65]), Url(2, 3, [66])];
      Fits(us, 0, 3) && Expand([97, 32, 98], us, 0, 0, []) == Err(Overlap)
  {
    var long: seq<Scalar> := [65, 65, 65, 65, 65];
    var us := [Url(0, 1, long), Url(2, 3, [66])];
    assert us[1..] == [Url(2, 3, [66])] && us[1..][1..] == [];
    assert [97, 32, 98][0..0] + long == long;
    ByteLenIsLength(long);
    Utf8IsLongEnough(long);
  }

  /** Replaces `u` in a buffer that holds `done` and then the text from `from` on. */
  method ReplaceUrl(buf: Text, byteOffset: nat, from: nat, u: Url, ghost text: seq<Scalar>, ghost done: seq<Scalar>)
    returns (at: Option<nat>)
    requires buf.Valid() && from <= |text| <= I64_MAX && buf.chars == done + text[from..]
    requires byteOffset == ByteLen(done) && u.start <= u.end <= U64_MAX
    modifies buf
    ensures buf.Valid()
    ensures at.Some? <==> from <= u.start && u.end <= |text|
    ensures at.Some? ==>
      var piece := text[from..u.start] + u.expanded;
      && buf.chars == (done + piece) + text[u.end..]
      && at.value + ByteLen(u.expanded) == ByteLen(done + piece) == ByteLen(done) + ByteLen(piece)
  {
    ghost var chars := buf.chars;
    assert chars[..|done|] == done;
    var start, end := WrappingSub(u.start, from), WrappingSub(u.end, from);
    at := buf.ReplaceCharRange(byteOffset, start, end, u.expanded, |done|);
    UrlReplaced(text, done, from, u, chars, at, buf.chars);
  }

  /** Replacing what the wrapped indices name in the buffer is replacing `u` in the text. */
  lemma UrlReplaced(text: seq<Scalar>, done: seq<Scalar>, from: nat, u: Url,
                    chars: seq<Scalar>, at: Option<nat>, after: seq<Scalar>)
    requires from <= |text| <= I64_MAX && u.start <= u.end <= U64_MAX && chars == done + text[from..]
    requires
      var start, end := WrappingSub(u.start, from), WrappingSub(u.end, from);
      Replaces(chars, |done| + start, WrappingSub(end, start), u.expanded, at, after)
    ensures at.Some? <==> from <= u.start && u.end <= |text|
    ensures at.Some? ==>
      var piece := text[from..u.start] + u.expanded;
      && after == (done + piece) + text[u.end..]
      && at.value + ByteLen(u.expanded) == ByteLen(done + piece) == ByteLen(done) + ByteLen(piece)
  {
    RangeIsInside(u.start, u.end, from, |text|);
    if from <= u.start && u.end <= |text| {
      UrlReplacedInside(text, done, from, u, chars, at, after);
    }
  }

  lemma UrlReplacedInside(text: seq<Scalar>, done: seq<Scalar>, from: nat, u: Url,
                          chars: seq<Scalar>, at: Option<nat>, after: seq<Scalar>)
    requires from <= u.start <= u.end <= |text| && chars == done + text[from..]
    requires Replaces(chars, |done| + (u.start - from), u.end - u.start, u.expanded, at, after)
    ensures at.Some?
    ensures
      var piece := text[from..u.start] + u.expanded;
      && after == (done + piece) + text[u.end..]
      && at.value + ByteLen(u.expanded) == ByteLen(done + piece) == ByteLen(done) + ByteLen(piece)
  {
    var gap := text[from..u.start];
    assert chars[..|done| + (u.start - from)] == done + gap;
    assert chars[|done| + (u.end - from)..] == text[u.end..];
    Associative(done, gap, u.expanded);
    PieceLength(done, gap, u.expanded);
  }

  lemma PieceLength(done: seq<Scalar>, gap: seq<Scalar>, expanded: seq<Scalar>)
    ensures ByteLen(done + gap) + ByteLen(expanded) == ByteLen(done + (gap + expanded))
    ensures ByteLen(done + (gap + expanded)) == ByteLen(done) + ByteLen(gap + expanded)
  {
    Associative(done, gap, expanded);
    ByteLenConcat(done + gap, expanded);
    ByteLenConcat(done, gap + expanded);
  }

  ghost predicate Usize(us: seq<Url>) {
    forall u :: u in us ==> u.start <= U64_MAX && u.end <= U64_MAX
  }

  /** `out` is the text with every link and every medium, listed in `urls` in order, expanded
      in its place. */
  ghost predicate Expanded(out: seq<Scalar>, text: seq<Scalar>, e: Entities, urls: seq<Url>) {
    && multiset(urls) == multiset(e.urls) + multiset(e.media)
    && Fits(urls, 0, |text|) && Shows(out, text, urls, 0, 0)
  }

  lemma ShownExpanded(text: seq<Scalar>, e: Entities)
    requires Fits(SortByStart(Merged(e)), 0, |text|)
    ensures Expanded(ReplaceBackwards(text, SortByStart(Merged(e))), text, e, SortByStart(Merged(e)))
  {
    var urls := SortByStart(Merged(e));
    AllTakePart(e, 0);
    SpliceIsReplacement(text, urls);
    assert [] + Splice(text, urls, 0) == Splice(text, urls, 0);
    SpliceShows(Splice(text, urls, 0), [], text, urls, 0);
  }

  /** `text` holds at most `isize::MAX` bytes, as every `String` does. */
  method ExpandUrls(text: seq<Scalar>, entities: Option<Entities>) returns (r: Result<seq<Byte>>)
    requires |Utf8(text)| <= I64_MAX
    requires entities.Some? ==> Usize(Merged(entities.value))
    ensures
      match (if entities == None then Ok(text) else Expand(text, SortByStart(Merged(entities.value)), 0, 0, []))
      case Ok(chars) => r == Ok(Utf8(chars))
      case Err(e) => r == Err(e)
    ensures entities.Some? ==>
      var urls := SortByStart(Merged(entities.value));
      && (r.Ok? <==> Fits(urls, 0, |text|) && NeverMistaken(text, urls, 0, 0))
      && (r.Ok? ==> r.value == Utf8(ReplaceBackwards(text, urls)))
    ensures entities == None ==> r == Ok(Utf8(text))
    ensures r.Ok? && entities.Some? ==>
      exists out, urls :: Expanded(out, text, entities.value, urls) && r.value == Utf8(out)
  {
    if entities.Some? {
      Expansion(text, SortByStart(Merged(entities.value)));
      AllTakePart(entities.value, 0);
      if Fits(SortByStart(Merged(entities.value)), 0, |text|) {
        ShownExpanded(text, entities.value);
      }
    }
    var buf := new Text(text);
    if entities.Some? {
      var urls := SortByStart(Merged(entities.value));
      SortSorts(Merged(entities.value));
      Utf8IsLongEnough(text);
      var error := SpliceInto(buf, urls, text);
      if error.Some? {
        return Err(error.value);
      }
    }
    r := Ok(buf.bytes);
  }

  method SpliceInto(buf: Text, urls: seq<Url>, ghost text: seq<Scalar>) returns (error: Option<Error>)
    requires buf.Valid() && buf.chars == text && |text| <= I64_MAX && Usize(urls)
    modifies buf
    ensures buf.Valid()
    ensures Expand(text, urls, 0, 0, []) == if error == None then Ok(buf.chars) else Err(error.value)
  {
    var byteOffset, charOffset := 0, 0;
    ghost var done: seq<Scalar> := [];
    assert [] + text[0..] == text;
    for i := 0 to |urls|
      invariant buf.Valid() && charOffset <= |text| && buf.chars == done + text[charOffset..]
      invariant byteOffset == ByteLen(done)
      invariant Expand(text, urls, 0, 0, []) == Expand(text, urls, i, charOffset, done)
    {
      var Url(s, e, expanded) := urls[i];
      if s > e {
        return Some(InvalidIndices);
      }
      if e < byteOffset {
        return Some(Overlap);
      }
      var at := ReplaceUrl(buf, byteOffset, charOffset, urls[i], text, done);
      if at == None {
        return Some(OutOfRange);
      }
      done := done + (text[charOffset..s] + expanded);
      byteOffset, charOffset := at.value + ByteLen(expanded), e;
    }
    error := None;
  }

  /** A range that starts before the offset wraps to one that no text is long enough for. */
  lemma RangeIsInside(s: nat, e: nat, from: nat, n: nat)
    requires s <= e <= U64_MAX && from <= n <= I64_MAX
    ensures
      var start, end := WrappingSub(s, from), WrappingSub(e, from);
      && WrappingSub(end, start) == e - s
      && (from + start + (e - s) <= n <==> from <= s && e <= n)
      && (from <= s ==> start == s - from)
  {
  }
}
