/**
 * The detect-only vote audit: `_check_field` and the totals of `run_check`
 * (core/management/commands/votes.py).
 *
 * The check walks each author group of a field's votes with three flags that
 * restart for every group (`is_author`, `up_met`, `down_met`) and one that
 * lives across groups (`author_met`), and reports findings; it changes no
 * vote. `Check` is its specification, written as the same walk over the
 * groups; the lemmas below relate the findings to counts over the votes
 * themselves.
 */
module AuditCheck {
  import opened Wrappers
  import opened VoteGroups

  /** The messages `_check_field` appends to `errs`, with the numbers they print. */
  datatype Finding =
    | AdditionalAuthor(field: int, author: Option<int>)
    | MismatchedAuthor(field: int, expected: Option<int>, found: Option<int>)
    | UpDownByAuthor(field: int)
    | DeleteNotByAuthor(field: int)
    | DownAfterUp(field: int)
    | UpAfterDown(field: int)
    | NoAuthor(field: int)

  /** `author_met`, `is_author`, `up_met`, `down_met`. */
  datatype Flags = Flags(authorMet: bool, isAuthor: bool, upMet: bool, downMet: bool)

  /** The flags at the start of an author group: only `author_met` carries over. */
  function GroupStart(authorMet: bool): Flags
  {
    Flags(authorMet, false, false, false)
  }

  /** The findings for one vote, given the flags before it. */
  function StepFindings(field: Field, st: Flags, v: Vote): seq<Finding>
  {
    if v.kind == Added then
      (if st.authorMet then [AdditionalAuthor(field.id, v.author)] else [])
      + (if v.author != field.author then [MismatchedAuthor(field.id, field.author, v.author)] else [])
    else if st.isAuthor && IsUpDown(v) then [UpDownByAuthor(field.id)]
    else if !st.isAuthor && v.kind == ToDel then [DeleteNotByAuthor(field.id)]
    else if st.upMet && v.kind == Down then [DownAfterUp(field.id)]
    else if st.downMet && v.kind == Up then [UpAfterDown(field.id)]
    else []
  }

  /** The flags after one vote. */
  function NextFlags(st: Flags, v: Vote): Flags
  {
    var st' := if v.kind == Added then st.(authorMet := true, isAuthor := true) else st;
    st'.(upMet := st'.upMet || v.kind == Up, downMet := st'.downMet || v.kind == Down)
  }

  /** The findings for one vote, and the flags after it. */
  function Step(field: Field, st: Flags, v: Vote): (seq<Finding>, Flags)
  {
    (StepFindings(field, st, v), NextFlags(st, v))
  }

  /** The walk over the votes of one group, from the flags `st`. */
  function CheckRun(field: Field, g: seq<Vote>, st: Flags): (seq<Finding>, Flags)
  {
    if g == [] then ([], st)
    else
      var before := CheckRun(field, g[..|g| - 1], st);
      var step := Step(field, before.1, g[|g| - 1]);
      (before.0 + step.0, step.1)
  }

  /** The walk over a list of groups: the findings, and whether an `ADDED` vote was met. */
  function CheckGroups(field: Field, gs: seq<seq<Vote>>): (seq<Finding>, bool)
  {
    if gs == [] then ([], false)
    else
      var before := CheckGroups(field, gs[..|gs| - 1]);
      var run := CheckRun(field, gs[|gs| - 1], GroupStart(before.1));
      (before.0 + run.0, run.1.authorMet)
  }

  /** `_check_field`: the findings for a field whose votes, in (author, id) order, are `vs`. */
  function Check(field: Field, vs: seq<Vote>): seq<Finding>
  {
    var walk := CheckGroups(field, Groups(vs));
    walk.0 + (if walk.1 then [] else [NoAuthor(field.id)])
  }

  // Counting votes and findings.

  predicate IsAdded(v: Vote) { v.kind == Added }
  predicate IsAdditional(f: Finding) { f.AdditionalAuthor? }
  predicate IsMismatched(f: Finding) { f.MismatchedAuthor? }
  predicate IsNoAuthor(f: Finding) { f.NoAuthor? }
  predicate IsUpDownByAuthor(f: Finding) { f.UpDownByAuthor? }
  predicate IsDeleteNotByAuthor(f: Finding) { f.DeleteNotByAuthor? }
  predicate IsFlipFlop(f: Finding) { f.DownAfterUp? || f.UpAfterDown? }

  /** A finding that is about who added the field, rather than about up/down/delete votes. */
  predicate IsAuthorship(f: Finding) { f.AdditionalAuthor? || f.MismatchedAuthor? || f.NoAuthor? }

  /** The `ADDED` votes whose author is not the field's recorded author. */
  function ForeignAdds(vs: seq<Vote>, author: Option<int>): nat
  {
    if vs == [] then 0
    else
      var v := vs[|vs| - 1];
      ForeignAdds(vs[..|vs| - 1], author) + (if v.kind == Added && v.author != author then 1 else 0)
  }

  predicate HasKind(vs: seq<Vote>, k: VoteKind)
  {
    exists i :: 0 <= i < |vs| && vs[i].kind == k
  }

  /** Up/down votes of a group that come after an `ADDED` vote of the same group. */
  function UpDownsAfterAdded(g: seq<Vote>): nat
  {
    if g == [] then 0
    else
      var init := g[..|g| - 1];
      UpDownsAfterAdded(init) + (if IsUpDown(g[|g| - 1]) && HasKind(init, Added) then 1 else 0)
  }

  /** Delete requests of a group that come before any `ADDED` vote of the group. */
  function DeletesBeforeAdded(g: seq<Vote>): nat
  {
    if g == [] then 0
    else
      var init := g[..|g| - 1];
      DeletesBeforeAdded(init) + (if g[|g| - 1].kind == ToDel && !HasKind(init, Added) then 1 else 0)
  }

  /**
   * Votes of a group, before any `ADDED` vote of the group, that reverse an
   * earlier vote of the group: a down after an up, or an up after a down.
   */
  function FlipFlops(g: seq<Vote>): nat
  {
    if g == [] then 0
    else
      var init := g[..|g| - 1];
      var v := g[|g| - 1];
      FlipFlops(init)
      + (if !HasKind(init, Added) && ((v.kind == Down && HasKind(init, Up)) || (v.kind == Up && HasKind(init, Down)))
         then 1 else 0)
  }

  lemma HasKindSnoc(vs: seq<Vote>, v: Vote, k: VoteKind)
    ensures HasKind(vs + [v], k) == (HasKind(vs, k) || v.kind == k)
  {
    if HasKind(vs, k) {
      var i :| 0 <= i < |vs| && vs[i].kind == k;
      assert (vs + [v])[i].kind == k;
    }
    assert (vs + [v])[|vs|] == v;
  }

  /**
   * Over one group, `author_met` ends up set exactly when it was set before
   * or the group has an `ADDED` vote; the group yields one "Additional
   * author" per `ADDED` vote except the first one met overall, one
   * "Mismatched author" per `ADDED` vote by someone other than the field's
   * author, and never "No author".
   */
  lemma {:induction false} CheckRunAuthorship(field: Field, g: seq<Vote>, st: Flags)
    ensures var run := CheckRun(field, g, st);
      var n := Count(g, IsAdded);
      && run.1.authorMet == (st.authorMet || n > 0)
      && Count(run.0, IsAdditional) == (if st.authorMet then n else if n == 0 then 0 else n - 1)
      && Count(run.0, IsMismatched) == ForeignAdds(g, field.author)
      && Count(run.0, IsNoAuthor) == 0
  {
    if g != [] {
      var init := g[..|g| - 1];
      var v := g[|g| - 1];
      CheckRunAuthorship(field, init, st);
      var before := CheckRun(field, init, st);
      var found := StepFindings(field, before.1, v);
      StepAuthorship(field, before.1, v);
      var run := CheckRun(field, g, st);
      assert run.0 == before.0 + found && run.1 == NextFlags(before.1, v);
      CountConcat(before.0, found, IsAdditional);
      CountConcat(before.0, found, IsMismatched);
      CountConcat(before.0, found, IsNoAuthor);
      var n0 := Count(init, IsAdded);
      assert Count(g, IsAdded) == n0 + (if v.kind == Added then 1 else 0);
      assert ForeignAdds(g, field.author)
        == ForeignAdds(init, field.author) + (if v.kind == Added && v.author != field.author then 1 else 0);
    }
  }

  /** The authorship findings a single vote yields. */
  lemma StepAuthorship(field: Field, st: Flags, v: Vote)
    ensures var found := StepFindings(field, st, v);
      && Count(found, IsAdditional) == (if v.kind == Added && st.authorMet then 1 else 0)
      && Count(found, IsMismatched) == (if v.kind == Added && v.author != field.author then 1 else 0)
      && Count(found, IsNoAuthor) == 0
  {
    var found := StepFindings(field, st, v);
    if v.kind == Added {
      StepAddedAuthorship(field, st, v);
    } else {
      StepOtherFinding(field, st, v);
      CountAtMostOne(found, IsAdditional);
      CountAtMostOne(found, IsMismatched);
      CountAtMostOne(found, IsNoAuthor);
    }
  }

  /** An `ADDED` vote draws "Additional author" when one was met before, and "Mismatched author" when it is not the field's author's. */
  lemma StepAddedAuthorship(field: Field, st: Flags, v: Vote)
    requires v.kind == Added
    ensures var found := StepFindings(field, st, v);
      && Count(found, IsAdditional) == (if st.authorMet then 1 else 0)
      && Count(found, IsMismatched) == (if v.author != field.author then 1 else 0)
      && Count(found, IsNoAuthor) == 0
  {
    var add := AdditionalAuthor(field.id, v.author);
    var mis := MismatchedAuthor(field.id, field.author, v.author);
    var found := StepFindings(field, st, v);
    if st.authorMet && v.author != field.author {
      assert found == [add, mis];
      CountUpToTwo(found, IsAdditional);
      CountUpToTwo(found, IsMismatched);
      CountUpToTwo(found, IsNoAuthor);
    } else if st.authorMet {
      assert found == [add];
      CountAtMostOne(found, IsAdditional);
      CountAtMostOne(found, IsMismatched);
      CountAtMostOne(found, IsNoAuthor);
    } else if v.author != field.author {
      assert found == [mis];
      CountAtMostOne(found, IsAdditional);
      CountAtMostOne(found, IsMismatched);
      CountAtMostOne(found, IsNoAuthor);
    } else {
      assert found == [];
    }
  }

  /** A vote other than `ADDED` yields at most one finding, and it is not about authorship. */
  lemma StepOtherFinding(field: Field, st: Flags, v: Vote)
    requires v.kind != Added
    ensures var found := StepFindings(field, st, v);
      |found| <= 1 && (found != [] ==> !IsAuthorship(found[0]))
  {
    var found := StepFindings(field, st, v);
    if st.isAuthor && IsUpDown(v) {
      assert found == [UpDownByAuthor(field.id)];
    } else if !st.isAuthor && v.kind == ToDel {
      assert found == [DeleteNotByAuthor(field.id)];
    } else if st.upMet && v.kind == Down {
      assert found == [DownAfterUp(field.id)];
    } else if st.downMet && v.kind == Up {
      assert found == [UpAfterDown(field.id)];
    } else {
      assert found == [];
    }
  }

  /** The findings about up/down and delete votes a single vote yields. */
  lemma StepVoteFindings(field: Field, st: Flags, v: Vote)
    ensures var found := StepFindings(field, st, v);
      && Count(found, IsUpDownByAuthor) == (if v.kind != Added && st.isAuthor && IsUpDown(v) then 1 else 0)
      && Count(found, IsDeleteNotByAuthor) == (if !st.isAuthor && v.kind == ToDel then 1 else 0)
      && Count(found, IsFlipFlop)
         == (if !st.isAuthor && ((st.upMet && v.kind == Down) || (st.downMet && v.kind == Up)) then 1 else 0)
  {
    StepUpDownByAuthor(field, st, v);
    StepDeleteNotByAuthor(field, st, v);
    StepFlipFlop(field, st, v);
  }

  /** An up/down vote after the group's `ADDED` vote draws "Up/down vote by author". */
  lemma StepUpDownByAuthor(field: Field, st: Flags, v: Vote)
    ensures Count(StepFindings(field, st, v), IsUpDownByAuthor) == (if v.kind != Added && st.isAuthor && IsUpDown(v) then 1 else 0)
  {
    var found := StepFindings(field, st, v);
    if v.kind == Added {
      StepAddedFindings(field, st, v, IsUpDownByAuthor);
    } else if st.isAuthor && IsUpDown(v) {
      assert found == [UpDownByAuthor(field.id)];
      CountAtMostOne(found, IsUpDownByAuthor);
    } else {
      StepOtherFinding(field, st, v);
      assert found == [] || !found[0].UpDownByAuthor?;
      CountAtMostOne(found, IsUpDownByAuthor);
    }
  }

  /** A delete request before the group's `ADDED` vote draws "Delete vote not by author". */
  lemma StepDeleteNotByAuthor(field: Field, st: Flags, v: Vote)
    ensures Count(StepFindings(field, st, v), IsDeleteNotByAuthor) == (if !st.isAuthor && v.kind == ToDel then 1 else 0)
  {
    var found := StepFindings(field, st, v);
    if v.kind == Added {
      StepAddedFindings(field, st, v, IsDeleteNotByAuthor);
    } else if st.isAuthor && IsUpDown(v) {
      assert found == [UpDownByAuthor(field.id)];
      CountAtMostOne(found, IsDeleteNotByAuthor);
    } else if !st.isAuthor && v.kind == ToDel {
      assert found == [DeleteNotByAuthor(field.id)];
      CountAtMostOne(found, IsDeleteNotByAuthor);
    } else {
      StepOtherFinding(field, st, v);
      assert found == [] || !found[0].DeleteNotByAuthor?;
      CountAtMostOne(found, IsDeleteNotByAuthor);
    }
  }

  /** A reversal before the group's `ADDED` vote draws "Down after up" or "Up after down". */
  lemma StepFlipFlop(field: Field, st: Flags, v: Vote)
    ensures Count(StepFindings(field, st, v), IsFlipFlop) == (if !st.isAuthor && ((st.upMet && v.kind == Down) || (st.downMet && v.kind == Up)) then 1 else 0)
  {
    var found := StepFindings(field, st, v);
    if v.kind == Added {
      StepAddedFindings(field, st, v, IsFlipFlop);
    } else if st.isAuthor && IsUpDown(v) {
      assert found == [UpDownByAuthor(field.id)];
      CountAtMostOne(found, IsFlipFlop);
    } else if !st.isAuthor && v.kind == ToDel {
      assert found == [DeleteNotByAuthor(field.id)];
      CountAtMostOne(found, IsFlipFlop);
    } else if st.upMet && v.kind == Down {
      assert found == [DownAfterUp(field.id)];
      CountAtMostOne(found, IsFlipFlop);
    } else if st.downMet && v.kind == Up {
      assert found == [UpAfterDown(field.id)];
      CountAtMostOne(found, IsFlipFlop);
    } else {
      assert found == [];
    }
  }

  /** An `ADDED` vote yields only authorship findings, so none that `p` counts when `p` rejects them. */
  lemma StepAddedFindings(field: Field, st: Flags, v: Vote, p: Finding -> bool)
    requires v.kind == Added
    requires forall f :: p(f) ==> !IsAuthorship(f)
    ensures Count(StepFindings(field, st, v), p) == 0
  {
    var a: seq<Finding> := if st.authorMet then [AdditionalAuthor(field.id, v.author)] else [];
    var m: seq<Finding> := if v.author != field.author then [MismatchedAuthor(field.id, field.author, v.author)] else [];
    assert StepFindings(field, st, v) == a + m;
    CountConcat(a, m, p);
    CountAtMostOne(a, p);
    CountAtMostOne(m, p);
  }

  /** Over a list of groups: the same facts, with `author_met` starting unset. */
  lemma {:induction false} CheckGroupsAuthorship(field: Field, gs: seq<seq<Vote>>)
    ensures var walk := CheckGroups(field, gs);
      var n := Count(Flatten(gs), IsAdded);
      && walk.1 == (n > 0)
      && Count(walk.0, IsAdditional) == (if n == 0 then 0 else n - 1)
      && Count(walk.0, IsMismatched) == ForeignAdds(Flatten(gs), field.author)
      && Count(walk.0, IsNoAuthor) == 0
  {
    if gs != [] {
      var init := gs[..|gs| - 1];
      var g := gs[|gs| - 1];
      CheckGroupsAuthorship(field, init);
      var before := CheckGroups(field, init);
      CheckRunAuthorship(field, g, GroupStart(before.1));
      var run := CheckRun(field, g, GroupStart(before.1));
      CountConcat(before.0, run.0, IsAdditional);
      CountConcat(before.0, run.0, IsMismatched);
      CountConcat(before.0, run.0, IsNoAuthor);
      CountConcat(Flatten(init), g, IsAdded);
      ForeignAddsConcat(Flatten(init), g, field.author);
    }
  }

  lemma {:induction false} ForeignAddsConcat(s: seq<Vote>, t: seq<Vote>, author: Option<int>)
    ensures ForeignAdds(s + t, author) == ForeignAdds(s, author) + ForeignAdds(t, author)
  {
    if t == [] {
      assert s + t == s;
    } else {
      assert (s + t)[..|s + t| - 1] == s + t[..|t| - 1];
      ForeignAddsConcat(s, t[..|t| - 1], author);
    }
  }

  /** The walk over the groups of a field, before "No author" is added. */
  lemma CheckWalkAuthorship(field: Field, vs: seq<Vote>)
    ensures var walk := CheckGroups(field, Groups(vs));
      var n := Count(vs, IsAdded);
      && walk.1 == (n > 0)
      && Count(walk.0, IsAdditional) == (if n == 0 then 0 else n - 1)
      && Count(walk.0, IsMismatched) == ForeignAdds(vs, field.author)
      && Count(walk.0, IsNoAuthor) == 0
  {
    var gs := Groups(vs);
    GroupsSplit(vs);
    assert Flatten(gs) == vs;
    CheckGroupsAuthorship(field, gs);
  }

  /**
   * The authorship findings of a whole field: "No author" once exactly when
   * it has no `ADDED` vote, "Additional author" for every `ADDED` vote after
   * the first, "Mismatched author" for every `ADDED` vote by someone other
   * than the field's author.
   */
  lemma CheckAuthorship(field: Field, vs: seq<Vote>)
    ensures var n := Count(vs, IsAdded);
      && Count(Check(field, vs), IsNoAuthor) == (if n == 0 then 1 else 0)
      && Count(Check(field, vs), IsAdditional) == (if n == 0 then 0 else n - 1)
      && Count(Check(field, vs), IsMismatched) == ForeignAdds(vs, field.author)
  {
    var walk := CheckGroups(field, Groups(vs));
    CheckWalkAuthorship(field, vs);
    var tail: seq<Finding> := if walk.1 then [] else [NoAuthor(field.id)];
    assert Check(field, vs) == walk.0 + tail;
    CountConcat(walk.0, tail, IsNoAuthor);
    CountConcat(walk.0, tail, IsAdditional);
    CountConcat(walk.0, tail, IsMismatched);
    CountAtMostOne(tail, IsNoAuthor);
    CountAtMostOne(tail, IsAdditional);
    CountAtMostOne(tail, IsMismatched);
  }

  /** "No author for field" is reported exactly when the field has no `ADDED` vote. */
  lemma NoAuthorIff(field: Field, vs: seq<Vote>)
    ensures NoAuthor(field.id) in Check(field, vs) <==> Count(vs, IsAdded) == 0
  {
    var walk := CheckGroups(field, Groups(vs));
    CheckWalkAuthorship(field, vs);
    var tail: seq<Finding> := if walk.1 then [] else [NoAuthor(field.id)];
    assert Check(field, vs) == walk.0 + tail;
    if NoAuthor(field.id) in walk.0 {
      NoAuthorCounted(walk.0, NoAuthor(field.id));
    }
  }

  lemma {:induction false} NoAuthorCounted(fs: seq<Finding>, f: Finding)
    requires f in fs && f.NoAuthor?
    ensures Count(fs, IsNoAuthor) > 0
  {
    if fs[|fs| - 1] != f {
      assert f in fs[..|fs| - 1] by {
        var i :| 0 <= i < |fs| && fs[i] == f;
        assert fs[..|fs| - 1][i] == f;
      }
      NoAuthorCounted(fs[..|fs| - 1], f);
    }
  }

  /** From a group's start the three group flags record which kinds the group has shown. */
  lemma {:induction false} CheckRunFlags(field: Field, g: seq<Vote>, authorMet: bool)
    ensures var st := CheckRun(field, g, GroupStart(authorMet)).1;
      && st.isAuthor == HasKind(g, Added)
      && st.upMet == HasKind(g, Up)
      && st.downMet == HasKind(g, Down)
  {
    if g != [] {
      var init := g[..|g| - 1];
      CheckRunFlags(field, init, authorMet);
      assert g == init + [g[|g| - 1]];
      HasKindSnoc(init, g[|g| - 1], Added);
      HasKindSnoc(init, g[|g| - 1], Up);
      HasKindSnoc(init, g[|g| - 1], Down);
    }
  }

  /**
   * Within one group: one "Up/down vote by author" per up/down vote after the
   * group's `ADDED`, one "Delete vote not by author" per delete request before
   * it, and one "Down after up" or "Up after down" per reversal before it.
   */
  lemma {:induction false} CheckRunVoteFindings(field: Field, g: seq<Vote>, authorMet: bool)
    ensures var found := CheckRun(field, g, GroupStart(authorMet)).0;
      && Count(found, IsUpDownByAuthor) == UpDownsAfterAdded(g)
      && Count(found, IsDeleteNotByAuthor) == DeletesBeforeAdded(g)
      && Count(found, IsFlipFlop) == FlipFlops(g)
  {
    if g != [] {
      var init := g[..|g| - 1];
      var v := g[|g| - 1];
      CheckRunVoteFindings(field, init, authorMet);
      CheckRunFlags(field, init, authorMet);
      var before := CheckRun(field, init, GroupStart(authorMet));
      var found := StepFindings(field, before.1, v);
      StepVoteFindings(field, before.1, v);
      CountConcat(before.0, found, IsUpDownByAuthor);
      CountConcat(before.0, found, IsDeleteNotByAuthor);
      CountConcat(before.0, found, IsFlipFlop);
    }
  }

  /**
   * The inner loop of `_check_field` over the votes of one author group:
   * the findings it appends and the new value of `author_met`.
   */
  method CheckGroup(field: Field, g: seq<Vote>, authorMet0: bool) returns (found: seq<Finding>, authorMet: bool)
    ensures var run := CheckRun(field, g, GroupStart(authorMet0));
      found == run.0 && authorMet == run.1.authorMet
    ensures authorMet == (authorMet0 || Count(g, IsAdded) > 0)
  {
    found := [];
    authorMet := authorMet0;
    var isAuthor, upMet, downMet := false, false, false;
    var k := 0;
    while k < |g|
      invariant 0 <= k <= |g|
      invariant (found, Flags(authorMet, isAuthor, upMet, downMet)) == CheckRun(field, g[..k], GroupStart(authorMet0))
    {
      var vote := g[k];
      assert g[..k + 1][..k] == g[..k];
      ghost var found0, st0 := found, Flags(authorMet, isAuthor, upMet, downMet);
      if vote.kind == Added {
        if authorMet {
          found := found + [AdditionalAuthor(field.id, vote.author)];
        }
        if vote.author != field.author {
          found := found + [MismatchedAuthor(field.id, field.author, vote.author)];
        }
        authorMet := true;
        isAuthor := true;
      } else if isAuthor && (vote.kind == Up || vote.kind == Down) {
        found := found + [UpDownByAuthor(field.id)];
      } else if !isAuthor && vote.kind == ToDel {
        found := found + [DeleteNotByAuthor(field.id)];
      } else if upMet && vote.kind == Down {
        found := found + [DownAfterUp(field.id)];
      } else if downMet && vote.kind == Up {
        found := found + [UpAfterDown(field.id)];
      }
      if vote.kind == Up {
        upMet := true;
      }
      if vote.kind == Down {
        downMet := true;
      }
      assert found == found0 + StepFindings(field, st0, vote);
      assert Flags(authorMet, isAuthor, upMet, downMet) == NextFlags(st0, vote);
      k := k + 1;
    }
    assert g[..k] == g;
    CheckRunAuthorship(field, g, GroupStart(authorMet0));
  }

  /** `_check_field`: walks the author groups of the field's votes and adds "No author" at the end. */
  method CheckField(field: Field, votes: seq<Vote>) returns (errs: seq<Finding>)
    ensures errs == Check(field, votes)
    ensures NoAuthor(field.id) in errs <==> Count(votes, IsAdded) == 0
    ensures Count(errs, IsAdditional) == (if Count(votes, IsAdded) == 0 then 0 else Count(votes, IsAdded) - 1)
    ensures Count(errs, IsMismatched) == ForeignAdds(votes, field.author)
  {
    errs := [];
    var authorMet := false;
    var groups := Groups(votes);
    var gi := 0;
    while gi < |groups|
      invariant 0 <= gi <= |groups|
      invariant (errs, authorMet) == CheckGroups(field, groups[..gi])
    {
      assert groups[..gi + 1][..gi] == groups[..gi];
      var found;
      found, authorMet := CheckGroup(field, groups[gi], authorMet);
      errs := errs + found;
      gi := gi + 1;
    }
    assert groups[..gi] == groups;
    if !authorMet {
      errs := errs + [NoAuthor(field.id)];
    }
    CheckAuthorship(field, votes);
    NoAuthorIff(field, votes);
  }

  /** The number of findings over a list of fields, each given with its votes. */
  function TotalFindings(fields: seq<(Field, seq<Vote>)>): nat
  {
    if fields == [] then 0
    else
      var f := fields[|fields| - 1];
      TotalFindings(fields[..|fields| - 1]) + |Check(f.0, f.1)|
  }

  /** The number of fields without findings. */
  function CleanFields(fields: seq<(Field, seq<Vote>)>): nat
  {
    if fields == [] then 0
    else
      var f := fields[|fields| - 1];
      CleanFields(fields[..|fields| - 1]) + (if Check(f.0, f.1) == [] then 1 else 0)
  }

  /**
   * The totals `run_check` prints: the findings over all fields, the fields
   * without findings, and the number of fields. Every field with findings
   * contributes at least one to the total.
   */
  method RunCheck(fields: seq<(Field, seq<Vote>)>) returns (totalErrors: nat, noErrorFields: nat, totalFields: nat)
    ensures totalFields == |fields|
    ensures totalErrors == TotalFindings(fields)
    ensures noErrorFields == CleanFields(fields)
    ensures noErrorFields <= totalFields
    ensures totalErrors >= totalFields - noErrorFields
  {
    totalFields, totalErrors, noErrorFields := 0, 0, 0;
    var i := 0;
    while i < |fields|
      invariant 0 <= i <= |fields|
      invariant totalFields == i
      invariant totalErrors == TotalFindings(fields[..i])
      invariant noErrorFields == CleanFields(fields[..i])
      invariant noErrorFields <= totalFields
      invariant totalErrors + noErrorFields >= totalFields
    {
      assert fields[..i + 1][..i] == fields[..i];
      totalFields := totalFields + 1;
      var errors := CheckField(fields[i].0, fields[i].1);
      totalErrors := totalErrors + |errors|;
      if errors == [] {
        noErrorFields := noErrorFields + 1;
      }
      i := i + 1;
    }
    assert fields[..i] == fields;
  }
}
