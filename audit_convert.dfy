/**
 * The repairing vote audit: `_convert_field` (core/management/commands/votes.py).
 *
 * Within each author group of a field's votes the repair deletes the up/down
 * votes cast after the group's own `ADDED` vote, turns delete requests cast
 * before it into down votes, and of the remaining up/down votes keeps only
 * the last. `ConvertField` is its specification, written as the same walk;
 * `Repaired` states the outcome for one group outright, and
 * `ConvertGroupRepaired` proves that the walk produces it.
 */
module AuditConvert {
  import opened VoteGroups

  /** The messages `_convert_field` appends, one per deletion or rewrite. */
  datatype Action =
    | RemovedAuthorUpDown(field: int)
    | RewroteDelete(field: int)
    | RemovedAdditionalUpDown(field: int)

  /**
   * The state of the walk over one group: `is_author`, the votes still
   * present (rewrites applied), and the actions taken so far.
   */
  datatype Walk = Walk(isAuthor: bool, kept: seq<Vote>, actions: seq<Action>)

  predicate IsDeleteRequest(v: Vote) { v.kind == ToDel }

  /** One vote of the walk. */
  function WalkStep(field: Field, w: Walk, v: Vote): Walk
  {
    if v.kind == Added then
      w.(isAuthor := true, kept := w.kept + [v])
    else if w.isAuthor && IsUpDown(v) then
      w.(actions := w.actions + [RemovedAuthorUpDown(field.id)])
    else if !w.isAuthor && v.kind == ToDel then
      w.(kept := w.kept + [v.(kind := Down)], actions := w.actions + [RewroteDelete(field.id)])
    else
      w.(kept := w.kept + [v])
  }

  /** The walk over the votes of one group. */
  function WalkRun(field: Field, g: seq<Vote>): Walk
  {
    if g == [] then Walk(false, [], [])
    else WalkStep(field, WalkRun(field, g[..|g| - 1]), g[|g| - 1])
  }

  /** The position of the last up/down vote of `s`, or -1 when it has none. */
  function LastUpDown(s: seq<Vote>): (i: int)
    ensures -1 <= i < |s|
    ensures i >= 0 ==> IsUpDown(s[i])
    ensures forall j :: i < j < |s| ==> !IsUpDown(s[j])
  {
    if s == [] then -1
    else if IsUpDown(s[|s| - 1]) then |s| - 1
    else LastUpDown(s[..|s| - 1])
  }

  /**
   * Deleting every up/down vote of `s` except the one at position `keep`,
   * with one action per deletion: `up_downs[:-1]` when `keep` is the last
   * up/down vote.
   */
  function Trim(field: Field, s: seq<Vote>, keep: int): (seq<Vote>, seq<Action>)
  {
    if s == [] then ([], [])
    else
      var before := Trim(field, s[..|s| - 1], keep);
      var v := s[|s| - 1];
      if IsUpDown(v) && |s| - 1 != keep then (before.0, before.1 + [RemovedAdditionalUpDown(field.id)])
      else (before.0 + [v], before.1)
  }

  /** The votes left of one group and the actions taken on it. */
  function ConvertGroup(field: Field, g: seq<Vote>): (seq<Vote>, seq<Action>)
  {
    var w := WalkRun(field, g);
    var trimmed := Trim(field, w.kept, LastUpDown(w.kept));
    (trimmed.0, w.actions + trimmed.1)
  }

  /** The repair of a list of groups, one after the other. */
  function ConvertGroups(field: Field, gs: seq<seq<Vote>>): (seq<Vote>, seq<Action>)
  {
    if gs == [] then ([], [])
    else
      var before := ConvertGroups(field, gs[..|gs| - 1]);
      var after := ConvertGroup(field, gs[|gs| - 1]);
      (before.0 + after.0, before.1 + after.1)
  }

  /** `_convert_field`: the votes left on the field, in (author, id) order, and the actions taken. */
  function ConvertField(field: Field, vs: seq<Vote>): (seq<Vote>, seq<Action>)
  {
    ConvertGroups(field, Groups(vs))
  }

  // The outcome of the repair of one group, stated directly.

  /** The position of the first `ADDED` vote of `g`, or `|g|` when it has none. */
  function FirstAdded(g: seq<Vote>): (k: nat)
    ensures k <= |g|
    ensures forall i :: 0 <= i < k ==> g[i].kind != Added
    ensures k < |g| ==> g[k].kind == Added
  {
    if g == [] then 0
    else if g[0].kind == Added then 0
    else 1 + FirstAdded(g[1..])
  }

  /** A delete request read as a down vote; any other vote as it is. */
  function Downgrade(v: Vote): Vote
  {
    if v.kind == ToDel then v.(kind := Down) else v
  }

  function Downgraded(s: seq<Vote>): (r: seq<Vote>)
    ensures |r| == |s|
    ensures forall i :: 0 <= i < |s| ==> r[i] == Downgrade(s[i])
  {
    if s == [] then [] else Downgraded(s[..|s| - 1]) + [Downgrade(s[|s| - 1])]
  }

  /** The `ADDED` votes and delete requests of `s`, in order. */
  function AddedOrDeletes(s: seq<Vote>): (r: seq<Vote>)
    ensures forall i :: 0 <= i < |r| ==> r[i].kind == Added || r[i].kind == ToDel
  {
    if s == [] then []
    else
      var v := s[|s| - 1];
      var before := AddedOrDeletes(s[..|s| - 1]);
      if v.kind == Added || v.kind == ToDel then before + [v] else before
  }

  /** The repair of an author part keeps only votes taken from it. */
  lemma {:induction false} AddedOrDeletesFrom(s: seq<Vote>)
    ensures forall x :: x in AddedOrDeletes(s) ==> x in s
  {
    if s != [] {
      AddedOrDeletesFrom(s[..|s| - 1]);
      assert forall x :: x in s[..|s| - 1] ==> x in s;
    }
  }

  /**
   * What is left of one group: of the votes before the group's first
   * `ADDED` vote only the last, a delete request among them read as a down
   * vote; then the `ADDED` vote and, after it, only `ADDED` votes and delete
   * requests.
   */
  function Repaired(g: seq<Vote>): seq<Vote>
  {
    var k := FirstAdded(g);
    (if k > 0 then [Downgrade(g[k - 1])] else [])
    + (if k < |g| then [g[k]] + AddedOrDeletes(g[k + 1..]) else [])
  }

  /** The walk over the first `n` votes of a group, stated directly. */
  ghost predicate WalkShape(g: seq<Vote>, n: nat, w: Walk)
    requires n <= |g|
  {
    var k := FirstAdded(g);
    && w.isAuthor == (n > k)
    && w.kept == (if n <= k then Downgraded(g[..n]) else Downgraded(g[..k]) + [g[k]] + AddedOrDeletes(g[k + 1..n]))
    && |w.kept| + |w.actions| == n + Count(g[..if n <= k then n else k], IsDeleteRequest)
  }

  /** Before the first `ADDED` vote every vote is kept, a delete request as a down vote. */
  lemma WalkStepBefore(field: Field, g: seq<Vote>, n: nat, w0: Walk)
    requires 0 < n <= FirstAdded(g)
    requires WalkShape(g, n - 1, w0)
    ensures WalkShape(g, n, WalkStep(field, w0, g[n - 1]))
  {
    assert g[..n][..n - 1] == g[..n - 1];
    assert Downgraded(g[..n]) == Downgraded(g[..n - 1]) + [Downgrade(g[n - 1])];
  }

  /** The first `ADDED` vote is kept and makes the rest of the group the author's. */
  lemma WalkStepAt(field: Field, g: seq<Vote>, n: nat, w0: Walk)
    requires 0 < n <= |g| && n - 1 == FirstAdded(g)
    requires WalkShape(g, n - 1, w0)
    ensures WalkShape(g, n, WalkStep(field, w0, g[n - 1]))
  {
    var k := n - 1;
    var w := WalkStep(field, w0, g[k]);
    assert w == w0.(isAuthor := true, kept := w0.kept + [g[k]]);
    assert w0.kept == Downgraded(g[..k]);
    assert g[k + 1..n] == [];
    assert AddedOrDeletes(g[k + 1..n]) == [];
    assert w.kept == Downgraded(g[..k]) + [g[k]] + AddedOrDeletes(g[k + 1..n]);
  }

  lemma SliceSnoc(g: seq<Vote>, i: nat, j: nat)
    requires i < j <= |g|
    ensures g[i..j] == g[i..j - 1] + [g[j - 1]]
  {
  }

  lemma AddedOrDeletesSnoc(s: seq<Vote>, v: Vote)
    ensures AddedOrDeletes(s + [v]) == AddedOrDeletes(s) + (if v.kind == Added || v.kind == ToDel then [v] else [])
  {
    assert (s + [v])[..|s|] == s;
  }

  /** One step of the walk once the author's `ADDED` vote was met: what it keeps. */
  lemma WalkStepAuthorKept(field: Field, w0: Walk, p: seq<Vote>, a: seq<Vote>, v: Vote)
    requires w0.isAuthor && w0.kept == p + a
    ensures WalkStep(field, w0, v).kept == p + (if v.kind == Added || v.kind == ToDel then a + [v] else a)
  {
    var w := WalkStep(field, w0, v);
    if v.kind == Added {
      assert w.kept == (p + a) + [v];
      assert (p + a) + [v] == p + (a + [v]);
    } else if IsUpDown(v) {
      assert w.kept == p + a;
    } else {
      assert v.kind == ToDel;
      assert w.kept == (p + a) + [v];
      assert (p + a) + [v] == p + (a + [v]);
    }
  }

  /** One step of the walk once the author's `ADDED` vote was met either keeps the vote or reports it. */
  lemma WalkStepAuthorCount(field: Field, w0: Walk, v: Vote)
    requires w0.isAuthor
    ensures WalkStep(field, w0, v).isAuthor
    ensures |WalkStep(field, w0, v).kept| + |WalkStep(field, w0, v).actions| == |w0.kept| + |w0.actions| + 1
  {
  }

  /** After the first `ADDED` vote up/down votes are dropped and everything else is kept. */
  lemma WalkStepAfter(field: Field, g: seq<Vote>, n: nat, w0: Walk)
    requires 0 < n <= |g| && n - 1 > FirstAdded(g)
    requires WalkShape(g, n - 1, w0)
    ensures WalkShape(g, n, WalkStep(field, w0, g[n - 1]))
  {
    var k := FirstAdded(g);
    SliceSnoc(g, k + 1, n);
    AddedOrDeletesSnoc(g[k + 1..n - 1], g[n - 1]);
    WalkStepAuthorKept(field, w0, Downgraded(g[..k]) + [g[k]], AddedOrDeletes(g[k + 1..n - 1]), g[n - 1]);
    WalkStepAuthorCount(field, w0, g[n - 1]);
  }

  lemma {:induction false} WalkRunShape(field: Field, g: seq<Vote>, n: nat)
    requires n <= |g|
    ensures WalkShape(g, n, WalkRun(field, g[..n]))
  {
    if n > 0 {
      WalkRunShape(field, g, n - 1);
      var w0 := WalkRun(field, g[..n - 1]);
      assert g[..n][..n - 1] == g[..n - 1];
      assert WalkRun(field, g[..n]) == WalkStep(field, w0, g[n - 1]);
      WalkStepShape(field, g, n, w0);
    }
  }

  /** One step of the walk, before, at or after the group's first `ADDED` vote. */
  lemma WalkStepShape(field: Field, g: seq<Vote>, n: nat, w0: Walk)
    requires 0 < n <= |g|
    requires WalkShape(g, n - 1, w0)
    ensures WalkShape(g, n, WalkStep(field, w0, g[n - 1]))
  {
    var k := FirstAdded(g);
    if n - 1 < k {
      WalkStepBefore(field, g, n, w0);
    } else if n - 1 == k {
      WalkStepAt(field, g, n, w0);
    } else {
      WalkStepAfter(field, g, n, w0);
    }
  }

  /** Trimming deletes each vote it does not keep and reports each deletion. */
  lemma {:induction false} TrimLength(field: Field, s: seq<Vote>, keep: int)
    ensures |Trim(field, s, keep).0| + |Trim(field, s, keep).1| == |s|
  {
    if s != [] {
      TrimLength(field, s[..|s| - 1], keep);
    }
  }

  /** Trimming a list made only of up/down votes, all before position `keep`, deletes all of them. */
  lemma {:induction false} TrimDropsAll(field: Field, s: seq<Vote>, keep: int)
    requires forall i :: 0 <= i < |s| ==> IsUpDown(s[i])
    requires keep >= |s|
    ensures Trim(field, s, keep).0 == []
  {
    if s != [] {
      TrimDropsAll(field, s[..|s| - 1], keep);
    }
  }

  /** Trimming keeps unchanged a suffix without up/down votes that lies after position `keep`. */
  lemma {:induction false} TrimKeepsRest(field: Field, p: seq<Vote>, t: seq<Vote>, keep: int)
    requires keep < |p|
    requires forall i :: 0 <= i < |t| ==> !IsUpDown(t[i])
    ensures Trim(field, p + t, keep).0 == Trim(field, p, keep).0 + t
  {
    if t == [] {
      assert p + t == p;
    } else {
      var init := t[..|t| - 1];
      assert (p + t)[..|p + t| - 1] == p + init;
      TrimKeepsRest(field, p, init, keep);
    }
  }

  predicate IsNotUpDown(v: Vote) { !IsUpDown(v) }

  /** Trimming removes no vote that is not an up/down vote: as many of them stay as there were. */
  lemma {:induction false} TrimKeepsOthers(field: Field, s: seq<Vote>, keep: int)
    ensures Count(Trim(field, s, keep).0, IsNotUpDown) == Count(s, IsNotUpDown)
  {
    if s != [] {
      var init := s[..|s| - 1];
      var v := s[|s| - 1];
      TrimKeepsOthers(field, init, keep);
      var before := Trim(field, init, keep).0;
      if !(IsUpDown(v) && |s| - 1 != keep) {
        assert Trim(field, s, keep).0 == before + [v];
        assert (before + [v])[..|before|] == before;
      }
    }
  }

  /** Every vote that is not an up/down vote is still there after trimming. */
  lemma {:induction false} TrimKeepsOthersIn(field: Field, s: seq<Vote>, keep: int)
    ensures forall i :: 0 <= i < |s| && !IsUpDown(s[i]) ==> s[i] in Trim(field, s, keep).0
  {
    if s != [] {
      var init := s[..|s| - 1];
      TrimKeepsOthersIn(field, init, keep);
      var before := Trim(field, init, keep).0;
      var r := Trim(field, s, keep).0;
      assert forall x :: x in before ==> x in r;
      forall i | 0 <= i < |s| - 1 && !IsUpDown(s[i]) ensures s[i] in r {
        assert s[i] == init[i];
      }
    }
  }

  /** The only up/down vote trimming can leave is the one at `keep`. */
  lemma {:induction false} TrimLeavesOnlyKept(field: Field, s: seq<Vote>, keep: int)
    ensures forall i :: 0 <= i < |Trim(field, s, keep).0| && IsUpDown(Trim(field, s, keep).0[i]) ==>
      0 <= keep < |s| && Trim(field, s, keep).0[i] == s[keep]
  {
    if s != [] {
      var init := s[..|s| - 1];
      var v := s[|s| - 1];
      TrimLeavesOnlyKept(field, init, keep);
      var before := Trim(field, init, keep).0;
      var r := Trim(field, s, keep).0;
      var extra := if IsUpDown(v) && |s| - 1 != keep then [] else [v];
      assert r == before + extra;
      forall i | 0 <= i < |r| && IsUpDown(r[i]) ensures 0 <= keep < |s| && r[i] == s[keep] {
        if i < |before| {
          assert r[i] == before[i];
          assert init[keep] == s[keep];
        } else {
          assert r[i] == v && keep == |s| - 1;
        }
      }
    }
  }

  /** The up/down vote at `keep` survives trimming. */
  lemma {:induction false} TrimKeepsKept(field: Field, s: seq<Vote>, keep: int)
    requires 0 <= keep < |s| && IsUpDown(s[keep])
    ensures s[keep] in Trim(field, s, keep).0
  {
    var init := s[..|s| - 1];
    var before := Trim(field, init, keep).0;
    if keep < |init| {
      TrimKeepsKept(field, init, keep);
      assert init[keep] == s[keep];
      assert forall x :: x in before ==> x in Trim(field, s, keep).0;
    } else {
      assert Trim(field, s, keep).0 == before + [s[keep]];
    }
  }

  /**
   * Trimming leaves one up/down vote when the vote at `keep` is one and none
   * otherwise, and reports one removal for every other up/down vote.
   */
  lemma {:induction false} TrimUpDownCount(field: Field, s: seq<Vote>, keep: int)
    ensures var kept := if 0 <= keep < |s| && IsUpDown(s[keep]) then 1 else 0;
      && Count(Trim(field, s, keep).0, IsUpDown) == kept
      && |Trim(field, s, keep).1| == Count(s, IsUpDown) - kept
  {
    if s != [] {
      var init := s[..|s| - 1];
      var v := s[|s| - 1];
      TrimUpDownCount(field, init, keep);
      var before := Trim(field, init, keep).0;
      if 0 <= keep < |init| {
        assert init[keep] == s[keep];
      }
      if !(IsUpDown(v) && |s| - 1 != keep) {
        assert Trim(field, s, keep).0 == before + [v];
        assert (before + [v])[..|before|] == before;
      }
    }
  }

  /**
   * The walk of a group leaves its up/down votes in front of everything
   * else, so the trim keeps only the last of them.
   */
  lemma TrimAfterWalk(field: Field, p: seq<Vote>, t: seq<Vote>)
    requires forall i :: 0 <= i < |p| ==> IsUpDown(p[i])
    requires forall i :: 0 <= i < |t| ==> !IsUpDown(t[i])
    ensures LastUpDown(p + t) == |p| - 1
    ensures Trim(field, p + t, |p| - 1).0 == (if p != [] then [p[|p| - 1]] else []) + t
  {
    var s := p + t;
    var i := LastUpDown(s);
    if p != [] {
      assert IsUpDown(s[|p| - 1]);
      assert i >= |p| - 1;
    }
    forall j | |p| <= j < |s| ensures !IsUpDown(s[j]) {
      assert s[j] == t[j - |p|];
    }
    if p == [] {
      assert s == t;
      TrimKeepsRest(field, [], t, -1);
    } else {
      var init := p[..|p| - 1];
      TrimDropsAll(field, init, |p| - 1);
      assert p[..|p| - 1] == init;
      TrimKeepsRest(field, p, t, |p| - 1);
    }
  }

  /** The votes of a group before its first `ADDED` vote, each read as an up/down vote. */
  lemma DowngradedIsUpDown(g: seq<Vote>)
    ensures var p := Downgraded(g[..FirstAdded(g)]);
      forall i :: 0 <= i < |p| ==> IsUpDown(p[i])
  {
    var k := FirstAdded(g);
    var p := Downgraded(g[..k]);
    forall i | 0 <= i < |p| ensures IsUpDown(p[i]) {
      assert p[i] == Downgrade(g[..k][i]);
      assert g[..k][i] == g[i];
    }
  }

  /** The votes a group keeps from its first `ADDED` vote on are no up/down votes. */
  lemma AuthorPartHasNoUpDown(g: seq<Vote>)
    ensures var k := FirstAdded(g);
      var t := if k < |g| then [g[k]] + AddedOrDeletes(g[k + 1..]) else [];
      forall i :: 0 <= i < |t| ==> !IsUpDown(t[i])
  {
    var k := FirstAdded(g);
    if k < |g| {
      var rest := AddedOrDeletes(g[k + 1..]);
      var t := [g[k]] + rest;
      forall i | 0 <= i < |t| ensures !IsUpDown(t[i]) {
        if i > 0 {
          assert t[i] == rest[i - 1];
        }
      }
    }
  }

  /** The walk over a whole group keeps the up/down part in front of the author part. */
  lemma WalkKept(field: Field, g: seq<Vote>)
    ensures var k := FirstAdded(g);
      var w := WalkRun(field, g);
      && w.kept == Downgraded(g[..k]) + (if k < |g| then [g[k]] + AddedOrDeletes(g[k + 1..]) else [])
      && |w.kept| + |w.actions| == |g| + Count(g[..k], IsDeleteRequest)
  {
    WalkRunShape(field, g, |g|);
    var k := FirstAdded(g);
    var w := WalkRun(field, g[..|g|]);
    assert WalkShape(g, |g|, w);
    assert w.kept == (if |g| <= k then Downgraded(g[..|g|]) else Downgraded(g[..k]) + [g[k]] + AddedOrDeletes(g[k + 1..|g|]));
    assert |w.kept| + |w.actions| == |g| + Count(g[..if |g| <= k then |g| else k], IsDeleteRequest);
    assert g[..|g|] == g;
  }

  /**
   * The repair of one group leaves exactly `Repaired(g)`, and takes one
   * action per vote it deletes plus one per delete request it rewrites.
   */
  lemma ConvertGroupRepaired(field: Field, g: seq<Vote>)
    ensures ConvertGroup(field, g).0 == Repaired(g)
    ensures |ConvertGroup(field, g).1| + |Repaired(g)| == |g| + Count(g[..FirstAdded(g)], IsDeleteRequest)
  {
    var k := FirstAdded(g);
    var w := WalkRun(field, g);
    var p := Downgraded(g[..k]);
    var t := if k < |g| then [g[k]] + AddedOrDeletes(g[k + 1..]) else [];
    WalkKept(field, g);
    DowngradedIsUpDown(g);
    AuthorPartHasNoUpDown(g);
    TrimAfterWalk(field, p, t);
    TrimLength(field, w.kept, LastUpDown(w.kept));
    if k > 0 {
      assert p[|p| - 1] == Downgrade(g[k - 1]);
    }
  }

  lemma LastUpDownSnoc(s: seq<Vote>, v: Vote)
    ensures LastUpDown(s + [v]) == if IsUpDown(v) then |s| else LastUpDown(s)
  {
    assert (s + [v])[..|s|] == s;
  }

  /** The last element of `s`, or -1 when it is empty: `up_downs[-1]`, the vote that survives. */
  function LastOf(s: seq<nat>): int
  {
    if s == [] then -1 else s[|s| - 1]
  }

  /**
   * `_convert_field`'s loop over the votes of one author group: the walk,
   * and in `upDowns` the positions among the kept votes of the up/down
   * votes it collects.
   */
  method WalkGroup(field: Field, g: seq<Vote>) returns (isAuthor: bool, kept: seq<Vote>, actions: seq<Action>, upDowns: seq<nat>)
    ensures Walk(isAuthor, kept, actions) == WalkRun(field, g)
    ensures LastOf(upDowns) == LastUpDown(kept)
  {
    isAuthor, kept, actions, upDowns := false, [], [], [];
    var k := 0;
    while k < |g|
      invariant 0 <= k <= |g|
      invariant Walk(isAuthor, kept, actions) == WalkRun(field, g[..k])
      invariant LastOf(upDowns) == LastUpDown(kept)
    {
      var vote := g[k];
      assert g[..k + 1][..k] == g[..k];
      assert WalkRun(field, g[..k + 1]) == WalkStep(field, WalkRun(field, g[..k]), vote);
      ghost var w0 := Walk(isAuthor, kept, actions);
      if vote.kind == Added {
        LastUpDownSnoc(kept, vote);
        isAuthor := true;
        kept := kept + [vote];
      } else if isAuthor && (vote.kind == Up || vote.kind == Down) {
        actions := actions + [RemovedAuthorUpDown(field.id)];
      } else {
        var v := vote;
        if !isAuthor && vote.kind == ToDel {
          v := vote.(kind := Down);
          actions := actions + [RewroteDelete(field.id)];
        }
        LastUpDownSnoc(kept, v);
        kept := kept + [v];
        if v.kind == Up || v.kind == Down {
          upDowns := upDowns + [|kept| - 1];
        }
      }
      assert Walk(isAuthor, kept, actions) == WalkStep(field, w0, vote);
      k := k + 1;
    }
    assert g[..k] == g;
  }

  /** The loop over `up_downs[:-1]`: deletes every up/down vote of `kept` but the one at `keep`. */
  method TrimKept(field: Field, kept: seq<Vote>, keep: int) returns (out: seq<Vote>, trimmed: seq<Action>)
    ensures (out, trimmed) == Trim(field, kept, keep)
  {
    out, trimmed := [], [];
    var x := 0;
    while x < |kept|
      invariant 0 <= x <= |kept|
      invariant (out, trimmed) == Trim(field, kept[..x], keep)
    {
      assert kept[..x + 1][..x] == kept[..x];
      var vote := kept[x];
      if (vote.kind == Up || vote.kind == Down) && x != keep {
        trimmed := trimmed + [RemovedAdditionalUpDown(field.id)];
      } else {
        out := out + [vote];
      }
      x := x + 1;
    }
    assert kept[..x] == kept;
  }

  /** The repair of one author group: the walk, then the trim of the collected up/down votes. */
  method RepairGroup(field: Field, g: seq<Vote>) returns (out: seq<Vote>, actions: seq<Action>)
    ensures (out, actions) == ConvertGroup(field, g)
    ensures out == Repaired(g)
  {
    var isAuthor, kept, walked, upDowns := WalkGroup(field, g);
    var keep := LastOf(upDowns);
    var trimmed;
    out, trimmed := TrimKept(field, kept, keep);
    actions := walked + trimmed;
    ConvertGroupRepaired(field, g);
  }

  /** The votes of one field value, as the repair finds and leaves them. */
  class FieldVotes {
    const field: Field
    var votes: seq<Vote>

    constructor (field: Field, votes: seq<Vote>)
      ensures this.field == field && this.votes == votes
    {
      this.field := field;
      this.votes := votes;
    }

    /**
     * `_convert_field`: repairs the votes group by group and reports each
     * deletion and rewrite. `ADDED` votes are never touched.
     */
    method Convert() returns (actions: seq<Action>)
      modifies this
      ensures (votes, actions) == ConvertField(field, old(votes))
    {
      var groups := Groups(votes);
      var done: seq<Vote> := [];
      actions := [];
      var gi := 0;
      while gi < |groups|
        invariant 0 <= gi <= |groups|
        invariant (done, actions) == ConvertGroups(field, groups[..gi])
      {
        assert groups[..gi + 1][..gi] == groups[..gi];
        var out, taken := RepairGroup(field, groups[gi]);
        done := done + out;
        actions := actions + taken;
        gi := gi + 1;
      }
      assert groups[..gi] == groups;
      votes := done;
    }
  }
}
