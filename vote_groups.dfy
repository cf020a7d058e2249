/**
 * Votes on one field value and their grouping by author, shared by the
 * integrity check and the repair of core/management/commands/votes.py.
 *
 * Both walk the votes of one field ordered by (author, id) and split them
 * with `itertools.groupby` into runs of consecutive votes by the same author.
 * `Groups` is that split; it needs no precondition, since `groupby` only ever
 * looks at neighbours.
 */
module VoteGroups {
  import opened Wrappers

  /** `Vote.VOTE_ADDED`, `VOTE_UP`, `VOTE_DOWN` and `VOTE_TO_DEL`. */
  datatype VoteKind = Added | Up | Down | ToDel

  /** A vote row: its id, its author's code (NULL for an anonymous vote) and its kind. */
  datatype Vote = Vote(id: int, author: Option<int>, kind: VoteKind)

  /** The field value the votes are about: its id and the code of its author. */
  datatype Field = Field(id: int, author: Option<int>)

  predicate IsUpDown(v: Vote)
  {
    v.kind == Up || v.kind == Down
  }

  /** The number of elements of `s` that satisfy `p`. */
  function Count<T>(s: seq<T>, p: T -> bool): nat
  {
    if s == [] then 0 else Count(s[..|s| - 1], p) + (if p(s[|s| - 1]) then 1 else 0)
  }

  lemma {:induction false} CountConcat<T>(s: seq<T>, t: seq<T>, p: T -> bool)
    ensures Count(s + t, p) == Count(s, p) + Count(t, p)
  {
    if t == [] {
      assert s + t == s;
    } else {
      assert (s + t)[..|s + t| - 1] == s + t[..|t| - 1];
      CountConcat(s, t[..|t| - 1], p);
    }
  }

  lemma CountAtMostOne<T>(s: seq<T>, p: T -> bool)
    requires |s| <= 1
    ensures Count(s, p) == if s != [] && p(s[0]) then 1 else 0
  {
    if s != [] {
      assert s[..0] == [];
    }
  }

  lemma CountUpToTwo<T>(s: seq<T>, p: T -> bool)
    requires |s| <= 2
    ensures Count(s, p) == (if |s| >= 1 && p(s[0]) then 1 else 0) + (if |s| == 2 && p(s[1]) then 1 else 0)
  {
    if s != [] {
      CountAtMostOne(s[..|s| - 1], p);
    }
  }

  /** The length of the leading run of votes by the author of the first vote. */
  function RunLength(vs: seq<Vote>): (n: nat)
    requires vs != []
    ensures 1 <= n <= |vs|
    ensures forall i :: 0 <= i < n ==> vs[i].author == vs[0].author
    ensures n < |vs| ==> vs[n].author != vs[0].author
  {
    if |vs| == 1 || vs[1].author != vs[0].author then 1
    else 1 + RunLength(vs[1..])
  }

  /** `groupby(votes, key=author)`: the maximal runs of consecutive votes by one author. */
  function Groups(vs: seq<Vote>): seq<seq<Vote>>
    decreases |vs|
  {
    if vs == [] then []
    else
      var n := RunLength(vs);
      [vs[..n]] + Groups(vs[n..])
  }

  function Flatten(gs: seq<seq<Vote>>): seq<Vote>
  {
    if gs == [] then [] else Flatten(gs[..|gs| - 1]) + gs[|gs| - 1]
  }

  /** A group is non-empty and all of its votes have one author. */
  predicate IsGroup(g: seq<Vote>)
  {
    g != [] && forall i :: 0 <= i < |g| ==> g[i].author == g[0].author
  }

  /** What `groupby` produces: non-empty single-author groups, neighbours by different authors. */
  predicate WellGrouped(gs: seq<seq<Vote>>)
  {
    && (forall i :: 0 <= i < |gs| ==> IsGroup(gs[i]))
    && (forall i :: 0 <= i < |gs| - 1 ==> gs[i][0].author != gs[i + 1][0].author)
  }

  lemma FlattenCons(g: seq<Vote>, gs: seq<seq<Vote>>)
    ensures Flatten([g] + gs) == g + Flatten(gs)
    decreases |gs|
  {
    if gs != [] {
      var init := gs[..|gs| - 1];
      assert ([g] + gs)[..|[g] + gs| - 1] == [g] + init;
      FlattenCons(g, init);
    }
  }

  /** Grouping loses, adds and reorders nothing. */
  lemma {:induction false} GroupsFlatten(vs: seq<Vote>)
    ensures Flatten(Groups(vs)) == vs
    decreases |vs|
  {
    if vs != [] {
      var n := RunLength(vs);
      var rest := vs[n..];
      GroupsFlatten(rest);
      FlattenCons(vs[..n], Groups(rest));
    }
  }

  /** Grouping yields what `groupby` yields: non-empty single-author runs, neighbours by different authors. */
  lemma {:induction false} GroupsWellGrouped(vs: seq<Vote>)
    ensures WellGrouped(Groups(vs))
    decreases |vs|
  {
    if vs != [] {
      var n := RunLength(vs);
      var rest := vs[n..];
      GroupsWellGrouped(rest);
      var gs: seq<seq<Vote>> := Groups(vs);
      var tail := Groups(rest);
      assert gs == [vs[..n]] + tail;
      if tail != [] {
        var r := RunLength(rest);
        assert tail[0] == rest[..r];
        assert gs[1][0] == rest[0] == vs[n];
      }
    }
  }

  /** Grouping loses and reorders nothing, and yields what `groupby` yields. */
  lemma GroupsSplit(vs: seq<Vote>)
    ensures Flatten(Groups(vs)) == vs
    ensures WellGrouped(Groups(vs))
  {
    GroupsFlatten(vs);
    GroupsWellGrouped(vs);
  }

  /** A single-author group followed by votes of someone else is one leading run. */
  lemma {:induction false} RunLengthOfGroup(g: seq<Vote>, rest: seq<Vote>)
    requires IsGroup(g)
    requires rest != [] ==> rest[0].author != g[0].author
    ensures RunLength(g + rest) == |g|
  {
    if |g| > 1 {
      assert (g + rest)[1..] == g[1..] + rest;
      RunLengthOfGroup(g[1..], rest);
    }
  }

  /** Grouping undoes flattening a well-grouped list of groups. */
  lemma {:induction false} GroupsOfFlatten(gs: seq<seq<Vote>>)
    requires WellGrouped(gs)
    ensures Groups(Flatten(gs)) == gs
    decreases |gs|
  {
    if gs != [] {
      var tail := gs[1..];
      assert gs == [gs[0]] + tail;
      FlattenCons(gs[0], tail);
      var vs := Flatten(gs);
      if tail != [] {
        FlattenCons(tail[0], tail[1..]);
        assert tail == [tail[0]] + tail[1..];
      }
      RunLengthOfGroup(gs[0], Flatten(tail));
      assert vs[|gs[0]|..] == Flatten(tail);
      assert vs[..|gs[0]|] == gs[0];
      GroupsOfFlatten(tail);
    }
  }
}
