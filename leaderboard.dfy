/**
 * The ranking of /top-players in server.js: the user documents whose
 * nickname, score and email have the expected types are collected, sorted
 * by score from high to low by a stable sort (`Array.prototype.sort`), and
 * the first ten are the leaderboard. Reading the documents from the
 * database is left to the caller, who passes them in.
 */
module Leaderboard {
  import opened Wrappers

  /** How many players the leaderboard shows. */
  const TopCount: nat := 10

  /** A user document: each field is present with the type the route checks for, or not. */
  datatype UserDoc = UserDoc(id: string, nickname: Option<string>, score: Option<int>, email: Option<string>)

  /** The record the route pushes for a well-typed document. */
  datatype Entry = Entry(uid: string, email: string, nickname: string, score: int)

  /** The document holding exactly the fields of `e`. */
  function AsDoc(e: Entry): UserDoc
  {
    UserDoc(e.uid, Some(e.nickname), Some(e.score), Some(e.email))
  }

  /**
   * The type check of the route: a string nickname, a numeric score and a
   * string email. A document passes exactly when it is the document of some entry.
   */
  predicate WellTyped(d: UserDoc)
    ensures WellTyped(d) <==> exists e :: AsDoc(e) == d
  {
    if d.nickname.Some? && d.score.Some? && d.email.Some? then
      assert AsDoc(Entry(d.id, d.email.value, d.nickname.value, d.score.value)) == d;
      true
    else
      false
  }

  /** The record pushed for a well-typed document: it keeps all of the document's fields. */
  function ToEntry(d: UserDoc): (e: Entry)
    requires WellTyped(d)
    ensures AsDoc(e) == d
  {
    Entry(d.id, d.email.value, d.nickname.value, d.score.value)
  }

  /** The other direction of the round trip: the entry of an entry's document is that entry. */
  lemma EntryRoundTrip(e: Entry)
    ensures WellTyped(AsDoc(e)) && ToEntry(AsDoc(e)) == e
  {
  }

  /** The documents that pass the type check, as entries, in snapshot order. */
  function Eligible(docs: seq<UserDoc>): (es: seq<Entry>)
    ensures |es| <= |docs|
  {
    if docs == [] then []
    else
      var last := docs[|docs| - 1];
      Eligible(docs[..|docs| - 1]) + if WellTyped(last) then [ToEntry(last)] else []
  }

  /** Collecting keeps the snapshot order: the entries of `a` come before those of `b`. */
  lemma {:induction false} EligibleAppend(a: seq<UserDoc>, b: seq<UserDoc>)
    ensures Eligible(a + b) == Eligible(a) + Eligible(b)
  {
    if b == [] {
      assert a + b == a;
    } else {
      var init := b[..|b| - 1];
      assert (a + b)[..|a + b| - 1] == a + init;
      assert (a + b)[|a + b| - 1] == b[|b| - 1];
      EligibleAppend(a, init);
    }
  }

  ghost predicate SortedDesc(es: seq<Entry>)
  {
    forall i, j :: 0 <= i < j < |es| ==> es[i].score >= es[j].score
  }

  /** The entries with score `v`, in order. */
  function WithScore(es: seq<Entry>, v: int): (r: seq<Entry>)
    ensures forall k :: 0 <= k < |r| ==> r[k].score == v
  {
    if es == [] then []
    else (if es[0].score == v then [es[0]] else []) + WithScore(es[1..], v)
  }

  /** Inserts `e` after every entry whose score is at least its own. */
  function Insert(e: Entry, s: seq<Entry>): (r: seq<Entry>)
    requires SortedDesc(s)
    ensures SortedDesc(r)
    ensures multiset(r) == multiset(s) + multiset{e}
  {
    if s == [] then [e]
    else if s[0].score >= e.score then
      var rest := Insert(e, s[1..]);
      assert s == [s[0]] + s[1..];
      forall k | 0 <= k < |rest| ensures rest[k].score <= s[0].score {
        assert rest[k] in multiset(s[1..]) + multiset{e};
      }
      ConsSorted(s[0], rest);
      [s[0]] + rest
    else
      ConsSorted(e, s);
      [e] + s
  }

  /** An entry scoring at least as much as every entry of a sorted list can go in front. */
  lemma ConsSorted(x: Entry, r: seq<Entry>)
    requires SortedDesc(r)
    requires forall k :: 0 <= k < |r| ==> r[k].score <= x.score
    ensures SortedDesc([x] + r)
  {
    forall i, j | 0 <= i < j < |r| + 1 ensures ([x] + r)[i].score >= ([x] + r)[j].score {
      if i > 0 {
        assert ([x] + r)[i] == r[i - 1];
      }
      assert ([x] + r)[j] == r[j - 1];
    }
  }

  /** Insertion keeps the entries of each score in order, `e` last among its equals. */
  lemma {:induction false} InsertStable(e: Entry, s: seq<Entry>, v: int)
    requires SortedDesc(s)
    ensures WithScore(Insert(e, s), v) == WithScore(s, v) + if e.score == v then [e] else []
    decreases |s|, 1
  {
    if s == [] {
      assert [e][1..] == [];
    } else if s[0].score >= e.score {
      InsertStablePast(e, s, v);
    } else {
      WithScoreCons(e, s, v);
      if e.score == v {
        NoneAbove(s, v);
      }
    }
  }

  lemma {:induction false} InsertStablePast(e: Entry, s: seq<Entry>, v: int)
    requires SortedDesc(s) && s != [] && s[0].score >= e.score
    ensures WithScore(Insert(e, s), v) == WithScore(s, v) + if e.score == v then [e] else []
    decreases |s|, 0
  {
    var rest := Insert(e, s[1..]);
    var head := if s[0].score == v then [s[0]] else [];
    var tail := if e.score == v then [e] else [];
    assert Insert(e, s) == [s[0]] + rest;
    InsertStable(e, s[1..], v);
    WithScoreCons(s[0], rest, v);
    WithScoreCons(s[0], s[1..], v);
    assert s == [s[0]] + s[1..];
    calc {
      WithScore(Insert(e, s), v);
      head + WithScore(rest, v);
      head + (WithScore(s[1..], v) + tail);
      { ConcatAssoc(head, WithScore(s[1..], v), tail); }
      (head + WithScore(s[1..], v)) + tail;
      WithScore(s, v) + tail;
    }
  }

  lemma ConcatAssoc(a: seq<Entry>, b: seq<Entry>, c: seq<Entry>)
    ensures (a + b) + c == a + (b + c)
  {
  }

  lemma WithScoreCons(x: Entry, r: seq<Entry>, v: int)
    ensures WithScore([x] + r, v) == (if x.score == v then [x] else []) + WithScore(r, v)
  {
    assert ([x] + r)[1..] == r;
  }

  lemma {:induction false} NoneAbove(s: seq<Entry>, v: int)
    requires SortedDesc(s)
    requires s != [] && s[0].score < v
    ensures WithScore(s, v) == []
  {
    if |s| > 1 {
      NoneAbove(s[1..], v);
    }
  }

  /**
   * `players.sort((a, b) => b.score - a.score)`: the result is ordered by
   * score from high to low, holds the same entries, and keeps the entries of
   * equal score in their original order, which makes it the one result of
   * any stable sort.
   */
  function SortByScore(es: seq<Entry>): (r: seq<Entry>)
    ensures SortedDesc(r)
    ensures multiset(r) == multiset(es)
    ensures forall v :: WithScore(r, v) == WithScore(es, v)
  {
    if es == [] then []
    else
      var init := es[..|es| - 1];
      var last := es[|es| - 1];
      assert es == init + [last];
      forall v ensures WithScore(Insert(last, SortByScore(init)), v) == WithScore(es, v) {
        WithScoreAppend(init, [last], v);
        InsertStable(last, SortByScore(init), v);
      }
      Insert(last, SortByScore(init))
  }

  lemma {:induction false} WithScoreAppend(a: seq<Entry>, b: seq<Entry>, v: int)
    ensures WithScore(a + b, v) == WithScore(a, v) + WithScore(b, v)
  {
    if a == [] {
      assert a + b == b;
    } else {
      assert (a + b)[1..] == a[1..] + b;
      WithScoreAppend(a[1..], b, v);
      var head := if a[0].score == v then [a[0]] else [];
      calc {
        WithScore(a + b, v);
        head + WithScore(a[1..] + b, v);
        head + (WithScore(a[1..], v) + WithScore(b, v));
        (head + WithScore(a[1..], v)) + WithScore(b, v);
      }
    }
  }

  /** The route: the forEach collects, the sort orders, the slice takes the first ten. */
  method TopPlayers(docs: seq<UserDoc>) returns (top10: seq<Entry>, allPlayers: seq<Entry>)
    ensures multiset(allPlayers) == multiset(Eligible(docs))
    ensures SortedDesc(allPlayers)
    ensures forall v :: WithScore(allPlayers, v) == WithScore(Eligible(docs), v)
    ensures top10 == allPlayers[..Min(TopCount, |allPlayers|)]
    ensures forall i, j :: 0 <= i < |top10| <= j < |allPlayers| ==> top10[i].score >= allPlayers[j].score
  {
    var players: seq<Entry> := [];
    var i := 0;
    while i < |docs|
      invariant 0 <= i <= |docs|
      invariant players == Eligible(docs[..i])
    {
      assert docs[..i + 1][..i] == docs[..i];
      var data := docs[i];
      if WellTyped(data) {
        players := players + [ToEntry(data)];
      }
      i := i + 1;
    }
    assert docs[..|docs|] == docs;
    allPlayers := SortByScore(players);
    top10 := allPlayers[..Min(TopCount, |allPlayers|)];
  }

  /** Only well-typed documents reach the leaderboard, each one as its entry. */
  lemma {:induction false} EligibleSpec(docs: seq<UserDoc>)
    ensures forall e :: e in Eligible(docs) <==> exists k :: 0 <= k < |docs| && WellTyped(docs[k]) && e == ToEntry(docs[k])
  {
    if docs != [] {
      var init := docs[..|docs| - 1];
      EligibleSpec(init);
      forall e ensures e in Eligible(docs) <==> exists k :: 0 <= k < |docs| && WellTyped(docs[k]) && e == ToEntry(docs[k]) {
        if e in Eligible(init) {
          var k :| 0 <= k < |init| && WellTyped(init[k]) && e == ToEntry(init[k]);
          assert docs[k] == init[k];
        }
        if exists k :: 0 <= k < |docs| && WellTyped(docs[k]) && e == ToEntry(docs[k]) {
          var k :| 0 <= k < |docs| && WellTyped(docs[k]) && e == ToEntry(docs[k]);
          if k < |docs| - 1 {
            assert init[k] == docs[k];
          }
        }
      }
    }
  }
}
