/**
 * How the repair and the check of core/management/commands/votes.py fit
 * together: after `_convert_field` the check can only report findings about
 * who added the field, those findings are the same as before the repair, and
 * a second repair takes no action.
 */
module AuditTheorems {
  import opened Wrappers
  import opened VoteGroups
  import opened AuditCheck
  import opened AuditConvert

  /**
   * A repaired group: no up/down vote after an `ADDED` vote, every delete
   * request after an `ADDED` vote, and at most one up/down vote.
   */
  ghost predicate Clean(r: seq<Vote>)
  {
    && (forall i, j :: 0 <= i < j < |r| && r[i].kind == Added ==> !IsUpDown(r[j]))
    && (forall j :: 0 <= j < |r| && r[j].kind == ToDel ==> exists i :: 0 <= i < j && r[i].kind == Added)
    && (forall i, j :: 0 <= i < j < |r| && IsUpDown(r[i]) ==> !IsUpDown(r[j]))
  }

  lemma CleanPrefix(r: seq<Vote>, n: nat)
    requires Clean(r) && n <= |r|
    ensures Clean(r[..n])
  {
    var p := r[..n];
    forall j | 0 <= j < |p| && p[j].kind == ToDel ensures exists i :: 0 <= i < j && p[i].kind == Added {
      var i :| 0 <= i < j && r[i].kind == Added;
      assert p[i] == r[i];
    }
  }

  /** Every group the repair leaves is clean. */
  lemma RepairedIsClean(g: seq<Vote>)
    ensures Clean(Repaired(g))
  {
    var k := FirstAdded(g);
    var u: seq<Vote> := if k > 0 then [Downgrade(g[k - 1])] else [];
    var t: seq<Vote> := if k < |g| then [g[k]] + AddedOrDeletes(g[k + 1..]) else [];
    var r := Repaired(g);
    assert r == u + t;
    assert forall i :: 0 <= i < |u| ==> IsUpDown(u[i]);
    forall i | 0 <= i < |t| ensures t[i].kind == Added || t[i].kind == ToDel {
      if i > 0 {
        assert t[i] == AddedOrDeletes(g[k + 1..])[i - 1];
      }
    }
    forall j | 0 <= j < |r| && r[j].kind == ToDel ensures exists i :: 0 <= i < j && r[i].kind == Added {
      assert j > |u|;
      assert r[|u|] == g[k];
    }
  }

  /** A clean group draws no finding about up/down votes or delete requests. */
  lemma {:induction false} CleanCounts(r: seq<Vote>)
    requires Clean(r)
    ensures UpDownsAfterAdded(r) == 0 && DeletesBeforeAdded(r) == 0 && FlipFlops(r) == 0
  {
    if r != [] {
      var init := r[..|r| - 1];
      var v := r[|r| - 1];
      CleanPrefix(r, |r| - 1);
      CleanCounts(init);
      forall i | 0 <= i < |init| ensures init[i].kind == Added ==> !IsUpDown(v)
        ensures IsUpDown(init[i]) ==> !IsUpDown(v)
      {
        assert init[i] == r[i];
      }
      if v.kind == ToDel {
        var i :| 0 <= i < |r| - 1 && r[i].kind == Added;
        assert init[i] == r[i];
      }
    }
  }

  /** Findings that are neither about up/down votes nor about delete requests are about authorship. */
  lemma {:induction false} OnlyAuthorship(fs: seq<Finding>)
    requires Count(fs, IsUpDownByAuthor) == 0 && Count(fs, IsDeleteNotByAuthor) == 0 && Count(fs, IsFlipFlop) == 0
    ensures forall f :: f in fs ==> IsAuthorship(f)
  {
    if fs != [] {
      var init := fs[..|fs| - 1];
      OnlyAuthorship(init);
      assert fs == init + [fs[|fs| - 1]];
    }
  }

  /** The check of a clean group reports only authorship findings. */
  lemma CleanGroupFindings(field: Field, r: seq<Vote>, authorMet: bool)
    requires Clean(r)
    ensures forall f :: f in CheckRun(field, r, GroupStart(authorMet)).0 ==> IsAuthorship(f)
  {
    CleanCounts(r);
    CheckRunVoteFindings(field, r, authorMet);
    OnlyAuthorship(CheckRun(field, r, GroupStart(authorMet)).0);
  }

  /** The check of a list of clean groups reports only authorship findings. */
  lemma {:induction false} CleanGroupsFindings(field: Field, gs: seq<seq<Vote>>)
    requires forall i :: 0 <= i < |gs| ==> Clean(gs[i])
    ensures forall f :: f in CheckGroups(field, gs).0 ==> IsAuthorship(f)
  {
    if gs != [] {
      var init := gs[..|gs| - 1];
      CleanGroupsFindings(field, init);
      CleanGroupFindings(field, gs[|gs| - 1], CheckGroups(field, init).1);
    }
  }

  /** The groups of a list, each repaired. */
  function RepairedAll(gs: seq<seq<Vote>>): (rs: seq<seq<Vote>>)
    ensures |rs| == |gs|
    ensures forall i :: 0 <= i < |gs| ==> rs[i] == Repaired(gs[i])
  {
    if gs == [] then [] else RepairedAll(gs[..|gs| - 1]) + [Repaired(gs[|gs| - 1])]
  }

  /** The repair of a list of groups leaves the repaired groups, one after the other. */
  lemma {:induction false} ConvertGroupsRepaired(field: Field, gs: seq<seq<Vote>>)
    ensures ConvertGroups(field, gs).0 == Flatten(RepairedAll(gs))
  {
    if gs != [] {
      var init := gs[..|gs| - 1];
      ConvertGroupsRepaired(field, init);
      ConvertGroupRepaired(field, gs[|gs| - 1]);
      var rs := RepairedAll(gs);
      assert rs[..|rs| - 1] == RepairedAll(init);
    }
  }

  /** A repaired group is a group of the same author. */
  lemma RepairedGroup(g: seq<Vote>)
    requires IsGroup(g)
    ensures IsGroup(Repaired(g)) && Repaired(g)[0].author == g[0].author
  {
    var k := FirstAdded(g);
    var r := Repaired(g);
    forall i | 0 <= i < |r| ensures r[i].author == g[0].author {
      if k > 0 && i == 0 {
        assert r[i] == Downgrade(g[k - 1]);
      } else {
        var j := if k > 0 then i - 1 else i;
        if j > 0 {
          var rest := AddedOrDeletes(g[k + 1..]);
          AddedOrDeletesFrom(g[k + 1..]);
          assert r[i] == rest[j - 1];
          assert rest[j - 1] in g[k + 1..];
        }
      }
    }
  }

  /** Repairing every group keeps the grouping `groupby` produced. */
  lemma RepairedWellGrouped(gs: seq<seq<Vote>>)
    requires WellGrouped(gs)
    ensures WellGrouped(RepairedAll(gs))
  {
    var rs := RepairedAll(gs);
    forall i | 0 <= i < |gs| ensures IsGroup(rs[i]) && rs[i][0].author == gs[i][0].author {
      RepairedGroup(gs[i]);
    }
  }

  /** The groups of the repaired votes are the repaired groups. */
  lemma GroupsOfRepair(field: Field, vs: seq<Vote>)
    ensures Groups(ConvertField(field, vs).0) == RepairedAll(Groups(vs))
  {
    GroupsSplit(vs);
    RepairedWellGrouped(Groups(vs));
    ConvertGroupsRepaired(field, Groups(vs));
    GroupsOfFlatten(RepairedAll(Groups(vs)));
  }

  /**
   * After `_convert_field`, `_check_field` can only report "Additional
   * author", "Mismatched author" or "No author".
   */
  lemma CheckAfterConvert(field: Field, vs: seq<Vote>)
    ensures forall f :: f in Check(field, ConvertField(field, vs).0) ==> IsAuthorship(f)
  {
    var out := ConvertField(field, vs).0;
    GroupsOfRepair(field, vs);
    var rs := RepairedAll(Groups(vs));
    forall i | 0 <= i < |rs| ensures Clean(rs[i]) {
      RepairedIsClean(Groups(vs)[i]);
    }
    CleanGroupsFindings(field, rs);
  }

  // ADDED votes survive the repair.

  /** The `ADDED` votes of `s`, in order. */
  function AddedVotes(s: seq<Vote>): seq<Vote>
  {
    if s == [] then []
    else AddedVotes(s[..|s| - 1]) + (if s[|s| - 1].kind == Added then [s[|s| - 1]] else [])
  }

  lemma {:induction false} AddedVotesConcat(s: seq<Vote>, t: seq<Vote>)
    ensures AddedVotes(s + t) == AddedVotes(s) + AddedVotes(t)
  {
    if t == [] {
      assert s + t == s;
    } else {
      assert (s + t)[..|s + t| - 1] == s + t[..|t| - 1];
      AddedVotesConcat(s, t[..|t| - 1]);
    }
  }

  lemma {:induction false} AddedVotesNone(s: seq<Vote>)
    requires forall i :: 0 <= i < |s| ==> s[i].kind != Added
    ensures AddedVotes(s) == []
  {
    if s != [] {
      AddedVotesNone(s[..|s| - 1]);
    }
  }

  lemma {:induction false} AddedVotesOfAddedOrDeletes(s: seq<Vote>)
    ensures AddedVotes(AddedOrDeletes(s)) == AddedVotes(s)
  {
    if s != [] {
      var init := s[..|s| - 1];
      var v := s[|s| - 1];
      AddedVotesOfAddedOrDeletes(init);
      if v.kind == Added || v.kind == ToDel {
        AddedVotesConcat(AddedOrDeletes(init), [v]);
        assert [v][..0] == [];
      }
    }
  }

  /** The repair of a group neither deletes nor rewrites any of its `ADDED` votes. */
  lemma RepairKeepsAdded(g: seq<Vote>)
    ensures AddedVotes(Repaired(g)) == AddedVotes(g)
  {
    var k := FirstAdded(g);
    var u: seq<Vote> := if k > 0 then [Downgrade(g[k - 1])] else [];
    AddedVotesNone(u);
    AddedVotesNone(g[..k]);
    if k < |g| {
      var rest := g[k + 1..];
      assert g == g[..k] + ([g[k]] + rest);
      AddedVotesConcat(g[..k], [g[k]] + rest);
      AddedVotesConcat([g[k]], rest);
      AddedVotesConcat([g[k]], AddedOrDeletes(rest));
      AddedVotesConcat(u, [g[k]] + AddedOrDeletes(rest));
      AddedVotesOfAddedOrDeletes(rest);
      assert [g[k]][..0] == [];
    } else {
      assert g[..k] == g;
      assert Repaired(g) == u;
    }
  }

  lemma {:induction false} RepairAllKeepsAdded(gs: seq<seq<Vote>>)
    ensures AddedVotes(Flatten(RepairedAll(gs))) == AddedVotes(Flatten(gs))
  {
    if gs != [] {
      var init := gs[..|gs| - 1];
      var rs := RepairedAll(gs);
      assert rs[..|rs| - 1] == RepairedAll(init);
      RepairAllKeepsAdded(init);
      RepairKeepsAdded(gs[|gs| - 1]);
      AddedVotesConcat(Flatten(RepairedAll(init)), Repaired(gs[|gs| - 1]));
      AddedVotesConcat(Flatten(init), gs[|gs| - 1]);
    }
  }

  /** `_convert_field` never deletes or rewrites an `ADDED` vote, nor changes their order. */
  lemma ConvertKeepsAdded(field: Field, vs: seq<Vote>)
    ensures AddedVotes(ConvertField(field, vs).0) == AddedVotes(vs)
  {
    GroupsSplit(vs);
    ConvertGroupsRepaired(field, Groups(vs));
    RepairAllKeepsAdded(Groups(vs));
  }

  /** How many `ADDED` votes there are, and how many by someone else, depends on the `ADDED` votes alone. */
  lemma {:induction false} CountAddedVotes(s: seq<Vote>, author: Option<int>)
    ensures Count(s, IsAdded) == |AddedVotes(s)|
    ensures ForeignAdds(s, author) == ForeignAdds(AddedVotes(s), author)
  {
    if s != [] {
      var init := s[..|s| - 1];
      var v := s[|s| - 1];
      CountAddedVotes(init, author);
      var a := AddedVotes(init);
      if v.kind == Added {
        assert AddedVotes(s) == a + [v];
        assert (a + [v])[..|a + [v]| - 1] == a;
        assert ForeignAdds(a + [v], author) == ForeignAdds(a, author) + (if v.author != author then 1 else 0);
      } else {
        assert AddedVotes(s) == a;
      }
    }
  }

  /**
   * The repair leaves the authorship findings of the check as they were:
   * as many "Additional author", "Mismatched author" and "No author"
   * findings after it as before.
   */
  lemma ConvertKeepsAuthorshipFindings(field: Field, vs: seq<Vote>)
    ensures var out := ConvertField(field, vs).0;
      && Count(Check(field, out), IsAdditional) == Count(Check(field, vs), IsAdditional)
      && Count(Check(field, out), IsMismatched) == Count(Check(field, vs), IsMismatched)
      && Count(Check(field, out), IsNoAuthor) == Count(Check(field, vs), IsNoAuthor)
  {
    var out := ConvertField(field, vs).0;
    ConvertKeepsAdded(field, vs);
    CountAddedVotes(vs, field.author);
    CountAddedVotes(out, field.author);
    CheckAuthorship(field, vs);
    CheckAuthorship(field, out);
  }

  // A second repair takes no action.

  lemma {:induction false} AddedOrDeletesFixed(s: seq<Vote>)
    requires forall i :: 0 <= i < |s| ==> s[i].kind == Added || s[i].kind == ToDel
    ensures AddedOrDeletes(s) == s
  {
    if s != [] {
      AddedOrDeletesFixed(s[..|s| - 1]);
      assert s[..|s| - 1] + [s[|s| - 1]] == s;
    }
  }

  /** A repaired group is left as it is by a second repair, and draws no action. */
  lemma RepairedFixed(field: Field, g: seq<Vote>)
    ensures ConvertGroup(field, Repaired(g)) == (Repaired(g), [])
  {
    var k := FirstAdded(g);
    var r := Repaired(g);
    var k' := FirstAdded(r);
    if k > 0 {
      assert r[0] == Downgrade(g[k - 1]);
      if k < |g| {
        var rest := AddedOrDeletes(g[k + 1..]);
        assert r[1] == g[k];
        assert k' == 1;
        assert r[2..] == rest;
        AddedOrDeletesFixed(rest);
      }
    } else if k < |g| {
      var rest := AddedOrDeletes(g[k + 1..]);
      assert r[1..] == rest;
      AddedOrDeletesFixed(rest);
    }
    assert Repaired(r) == r;
    assert Count(r[..k'], IsDeleteRequest) == 0 by {
      if k' > 0 {
        assert r[..k'] == [r[0]];
        assert [r[0]][..0] == [];
      }
    }
    ConvertGroupRepaired(field, r);
  }

  lemma {:induction false} RepairedAllFixed(field: Field, gs: seq<seq<Vote>>)
    ensures ConvertGroups(field, RepairedAll(gs)) == (Flatten(RepairedAll(gs)), [])
  {
    if gs != [] {
      var init := gs[..|gs| - 1];
      var rs := RepairedAll(gs);
      assert rs[..|rs| - 1] == RepairedAll(init);
      RepairedAllFixed(field, init);
      RepairedFixed(field, gs[|gs| - 1]);
    }
  }

  /** `_convert_field` is idempotent: run again on its outcome it deletes and rewrites nothing. */
  lemma ConvertIdempotent(field: Field, vs: seq<Vote>)
    ensures var out := ConvertField(field, vs).0;
      ConvertField(field, out) == (out, [])
  {
    GroupsOfRepair(field, vs);
    ConvertGroupsRepaired(field, Groups(vs));
    RepairedAllFixed(field, Groups(vs));
  }
}
