# Vote scoring and vote audits

This project models two parts of a crowd-sourced directory of people, where
users vote on the values proposed for each field of a person's card.

- **Status resolution** (`core/rules.py`, `get_statuses`). The votes on the
  competing values of one field are summed into a score per value. Each vote
  is weighted by who cast it: the card's own subject counts ten times their
  trust level, a valid credential counts its trust level, and an anonymous
  vote counts 0.1. The values are then ranked by score. The first is
  *trusted*; every other value is *untrusted*, or *hidden* when its score is
  negative.
- **Vote audit** (`core/management/commands/votes.py`). The votes of one field
  value are ordered by (author, id) and split by `groupby` into runs by the
  same author.
  - `_check_field` reports problems and changes nothing: an additional or
    mismatched author, up/down votes by the author, delete requests by others,
    vote reversals, and a missing author. `run_check` totals these findings.
  - `_convert_field` repairs the votes group by group. It deletes up/down
    votes the author cast after their own `ADDED` vote. It rewrites delete
    requests cast before it into down votes. Of the remaining up/down votes it
    keeps only the last.

Modules:

- `Wrappers`: `Option` and `Result`.
- `Rules`: `get_statuses`.
- `VoteGroups`: votes and the `groupby` split.
- `AuditCheck`: the check.
- `AuditConvert`: the repair, with the field's votes as a class whose method
  replaces them.
- `AuditTheorems`: how the check and the repair fit together.

Every loop of `get_statuses`, `_check_field`, `_convert_field` and `run_check` is a
method proved against a specification function.
The specification function is written as a left fold, and lemmas state what it
means.

## Model

| member | source | states |
|---|---|---|
| Rules.Contribution | core/rules.py:11-16 | the weight of one ballot: the subject's own ballot counts vote × trust × 10, whether or not it is valid (`is_me` is tested first); a valid credential counts vote × trust; any other ballot vote × 0.1. A zero vote adds nothing, and with a non-negative trust level a ballot never pulls against its vote |
| Rules.Score | core/rules.py:8-16 | the `Counter` entry of a value after the loop: the sum of the weights of the ballots on that value, in ballot order |
| Rules.ScoreOfAbsentValue | core/rules.py:10-16 | a value nobody voted on has score 0 |
| Rules.ScoreConcat | core/rules.py:10-16 | the score of a value over two ballot lists is the sum of its scores over each |
| Rules.ScoreOrderIndependent | core/rules.py:10-16 | two ballot lists holding the same ballots, in any order, give every value the same score |
| Rules.Aggregate | core/rules.py:8-16 | the Counter has exactly the voted values as keys; each maps to that value's weighted sum (×trust×10 for the subject, ×trust for a valid credential, ×0.1 otherwise) |
| Rules.Insert | core/rules.py:19 | inserting one pair into the ranking adds exactly that pair, as a multiset |
| Rules.InsertNonIncreasing | core/rules.py:19 | inserting into a ranking sorted by decreasing score keeps it sorted |
| Rules.InsertDistinct | core/rules.py:19 | inserting a new value into a ranking without repeats keeps it without repeats |
| Rules.ValuesOfMultiset | core/rules.py:19 | a ranking with one more pair has exactly that pair's value as an extra value |
| Rules.RankByScore | core/rules.py:19 | the sorted items hold every key exactly once with its own score, in non-increasing score order |
| Rules.DistinctCount | core/rules.py:19-21 | a ranking without repeated values has as many entries as distinct values |
| Rules.AssignStatuses | core/rules.py:20-26 | one entry per ranked pair, same value and score, in ranking order; the first trusted, later ones hidden when the score is negative and untrusted otherwise |
| Rules.StatusListOfRanking | core/rules.py:18-26 | the entries built from a ranking are a status list: the top is trusted, later ones are hidden iff negative, else untrusted, and the top score is the maximum |
| Rules.GetStatuses | core/rules.py:7-28 | fails exactly on an empty ballot list (`vs[0]`); otherwise one entry per distinct value with its score, sorted by score, with statuses as above, and the first entry holds the highest score |
| VoteGroups.Groups | core/management/commands/votes.py:84 | `groupby` on the author: the leading maximal run of one author's votes, then the groups of the rest |
| VoteGroups.CountConcat | core/management/commands/votes.py:84-109 | counting over a concatenation is the sum of the counts |
| VoteGroups.RunLength | core/management/commands/votes.py:84 | a leading run is non-empty, single-author and maximal |
| VoteGroups.GroupsFlatten | core/management/commands/votes.py:84 | concatenating the groups gives back the votes: nothing lost, added or reordered |
| VoteGroups.GroupsWellGrouped | core/management/commands/votes.py:84 | the groups are non-empty and single-author, and neighbouring groups differ in author |
| VoteGroups.GroupsSplit | core/management/commands/votes.py:84 | `groupby` loses, adds and reorders no vote; its groups are non-empty, single-author, and neighbouring groups differ in author |
| VoteGroups.RunLengthOfGroup | core/management/commands/votes.py:84 | a single-author group followed by another author's votes is exactly one leading run |
| VoteGroups.GroupsOfFlatten | core/management/commands/votes.py:84 | grouping the concatenation of well-formed groups gives those groups back |
| AuditCheck.StepFindings | core/management/commands/votes.py:89-105 | one vote's findings: an `ADDED` vote draws "Additional author" if an author was met and "Mismatched author" if its author is not the field's; otherwise the first matching branch of: up/down after the group's `ADDED`, delete request before it, down after an up, up after a down |
| AuditCheck.NextFlags | core/management/commands/votes.py:96-97 | after an `ADDED` vote `author_met` and `is_author` are set; after an up (down) vote `up_met` (`down_met`) is set, whichever branch reported |
| AuditCheck.CheckRun | core/management/commands/votes.py:88-109 | the inner loop over one group: the findings of each vote in order, with the flags threaded from vote to vote |
| AuditCheck.CheckGroups | core/management/commands/votes.py:84-109 | the outer loop: each group starts with `is_author`, `up_met` and `down_met` false and `author_met` carried over; the findings of all groups in order |
| AuditCheck.Check | core/management/commands/votes.py:80-112 | `_check_field`: the walk over the author groups of the votes, then "No author" if no `ADDED` vote was met |
| AuditCheck.StepAuthorship | core/management/commands/votes.py:89-97 | an `ADDED` vote yields "Additional author" iff an author was met, and "Mismatched author" iff its author differs from the field's; other votes yield neither |
| AuditCheck.StepAddedAuthorship | core/management/commands/votes.py:89-96 | an `ADDED` vote yields "Additional author" exactly when an author was met before, "Mismatched author" exactly when its author is not the field's, and nothing else |
| AuditCheck.StepVoteFindings | core/management/commands/votes.py:98-105 | a single vote other than `ADDED` yields "Up/down vote by author" iff it is an up/down vote after the group's `ADDED`; "Delete vote not by author" iff it is a delete request before it; a reversal finding iff, before it, it is a down after an up or an up after a down |
| AuditCheck.CheckRunAuthorship | core/management/commands/votes.py:88-97 | over a run, `author_met` becomes true iff an `ADDED` vote occurs; "Additional author" counts every `ADDED` vote after the first; "Mismatched author" counts `ADDED` votes by others; no "No author" |
| AuditCheck.CheckGroupsAuthorship | core/management/commands/votes.py:84-109 | the same three counts hold over all groups, with `author_met` carried across groups |
| AuditCheck.ForeignAddsConcat | core/management/commands/votes.py:92-95 | `ADDED` votes by others add up over a concatenation |
| AuditCheck.CheckWalkAuthorship | core/management/commands/votes.py:81-109 | after all groups, `author_met` is true iff the field has an `ADDED` vote; n `ADDED` votes draw n-1 "Additional author" findings; "Mismatched author" is drawn once per `ADDED` vote not by the field's author |
| AuditCheck.CheckAuthorship | core/management/commands/votes.py:80-112 | "No author" appears once if the field has no `ADDED` vote and never otherwise; "Additional author" appears n-1 times for n `ADDED` votes; "Mismatched author" appears once per `ADDED` vote not by the field's author |
| AuditCheck.NoAuthorIff | core/management/commands/votes.py:110-111 | "No author for field" is reported if and only if the field has no `ADDED` vote |
| AuditCheck.NoAuthorCounted | core/management/commands/votes.py:110-111 | a list containing a "No author" finding has a positive count of them |
| AuditCheck.CheckRunFlags | core/management/commands/votes.py:85-109 | from a group's start, `is_author`, `up_met` and `down_met` are true iff the group so far has an `ADDED`, an up, a down vote |
| AuditCheck.CheckRunVoteFindings | core/management/commands/votes.py:98-105 | per group: one "Up/down vote by author" per up/down vote after an `ADDED`; one "Delete vote not by author" per delete request before any `ADDED`; one reversal finding per down-after-up or up-after-down before any `ADDED` |
| AuditCheck.CheckGroup | core/management/commands/votes.py:85-109 | the inner loop appends exactly the run's findings; `author_met` becomes true iff it was or the group has an `ADDED` vote |
| AuditCheck.CheckField | core/management/commands/votes.py:73-112 | returns the findings of the walk; "No author" is among them iff there is no `ADDED` vote; the additional- and mismatched-author counts as in CheckAuthorship |
| AuditCheck.RunCheck | core/management/commands/votes.py:36-48 | counts all fields, sums the findings, counts the fields without findings; fields without findings are at most all fields, and every field with findings adds at least one to the total |
| AuditConvert.WalkStep | core/management/commands/votes.py:127-138 | one vote of the repair: an `ADDED` vote sets `is_author` and stays; an up/down vote after it is deleted and reported; a delete request before it becomes a down vote and is reported; any other vote stays |
| AuditConvert.WalkRun | core/management/commands/votes.py:124-138 | the inner loop over one group, from `is_author` false with nothing kept and nothing reported |
| AuditConvert.Trim | core/management/commands/votes.py:139-142 | every up/down vote except the one at `keep` is deleted, with one report per deletion; the other votes stay in order |
| AuditConvert.ConvertGroup | core/management/commands/votes.py:123-142 | one group: the walk, then the trim keeping the last up/down vote the walk kept (`up_downs[-1]`); the walk's reports, then the trim's |
| AuditConvert.ConvertField | core/management/commands/votes.py:121-143 | `_convert_field`: each author group repaired in turn, the votes left and the reports concatenated in order |
| AuditConvert.Repaired | core/management/commands/votes.py:123-142 | the outcome of one group stated directly: the last vote before the first `ADDED` (a delete request read as a down), then that `ADDED` vote and the later `ADDED` votes and delete requests |
| AuditConvert.LastUpDown | core/management/commands/votes.py:137-140 | the position of the last up/down vote, with no up/down vote after it (-1 if none) |
| AuditConvert.FirstAdded | core/management/commands/votes.py:127-128 | the position of a group's first `ADDED` vote, with none before it (`|g|` if none) |
| AuditConvert.Downgraded | core/management/commands/votes.py:133-135 | every vote read with a delete request rewritten to a down vote |
| AuditConvert.AddedOrDeletes | core/management/commands/votes.py:127-132 | what survives after the author's `ADDED` vote: only `ADDED` votes and delete requests, all taken from the input |
| AuditConvert.WalkRunShape | core/management/commands/votes.py:124-138 | the walk over a group's first n votes keeps all earlier votes (delete requests as downs) up to the first `ADDED`; after it, only `ADDED` votes and delete requests; one action per deletion or rewrite |
| AuditConvert.TrimLength | core/management/commands/votes.py:139-142 | every vote is either kept or reported as removed |
| AuditConvert.TrimDropsAll | core/management/commands/votes.py:139-142 | a list made only of up/down votes, all before the kept position, is removed entirely (the votes in front of the one the repair keeps) |
| AuditConvert.TrimKeepsRest | core/management/commands/votes.py:139-142 | a suffix without up/down votes that lies after the kept position comes through the trim unchanged |
| AuditConvert.TrimKeepsOthers | core/management/commands/votes.py:139-142 | the trim removes no vote that is not an up/down vote: as many of them are left as there were |
| AuditConvert.TrimKeepsOthersIn | core/management/commands/votes.py:139-142 | every vote that is not an up/down vote is still present after the trim |
| AuditConvert.TrimLeavesOnlyKept | core/management/commands/votes.py:139-142 | any up/down vote left after the trim is the one at the kept position |
| AuditConvert.TrimKeepsKept | core/management/commands/votes.py:139-142 | the up/down vote at the kept position survives the trim |
| AuditConvert.TrimUpDownCount | core/management/commands/votes.py:139-142 | the trim leaves exactly one up/down vote when the kept position holds one and none otherwise, and reports one removal for each other up/down vote |
| AuditConvert.TrimAfterWalk | core/management/commands/votes.py:137-142 | when the up/down votes come first, the last of them is the one kept and the rest of the list is untouched |
| AuditConvert.ConvertGroupRepaired | core/management/commands/votes.py:123-142 | a group is repaired to: the last vote before its `ADDED` (a delete request read as a down), then the `ADDED` vote and the later `ADDED` votes and delete requests; kept plus reported votes equal the group plus its rewrites |
| AuditConvert.WalkGroup | core/management/commands/votes.py:124-138 | the loop over one group produces exactly the walk; the last position it collects in `up_downs` is the last up/down vote kept (-1 if none) |
| AuditConvert.TrimKept | core/management/commands/votes.py:139-142 | deletes every kept up/down vote except the one at `keep`, and reports one "Removed additional up/down vote" per deletion |
| AuditConvert.RepairGroup | core/management/commands/votes.py:123-142 | the two loops over one group leave exactly the repaired group and report exactly the walk's and the trim's actions |
| AuditConvert.FieldVotes.Convert | core/management/commands/votes.py:114-143 | replaces the field's votes by their repair and returns the actions taken, group by group |
| AuditTheorems.RepairedIsClean | core/management/commands/votes.py:123-142 | a repaired group has no up/down vote after an `ADDED`, no delete request before one, and at most one up/down vote |
| AuditTheorems.CleanCounts | core/management/commands/votes.py:98-105 | such a group draws no up/down-by-author, delete-not-by-author or reversal finding |
| AuditTheorems.RepairedGroup | core/management/commands/votes.py:123 | a repaired group is a non-empty group of the same author |
| AuditTheorems.GroupsOfRepair | core/management/commands/votes.py:84 | grouping the repaired votes again gives exactly the repaired groups |
| AuditTheorems.CheckAfterConvert | core/management/commands/votes.py:73-143 | after the repair, the check reports only "Additional author", "Mismatched author" or "No author" |
| AuditTheorems.RepairKeepsAdded | core/management/commands/votes.py:127-128 | the repair of a group keeps all of its `ADDED` votes, in order |
| AuditTheorems.ConvertKeepsAdded | core/management/commands/votes.py:114-143 | the repair of a field keeps all of its `ADDED` votes, in order |
| AuditTheorems.CountAddedVotes | core/management/commands/votes.py:89-95 | the number of `ADDED` votes, and of those by others, depends only on the `ADDED` votes |
| AuditTheorems.ConvertKeepsAuthorshipFindings | core/management/commands/votes.py:89-111 | after the repair there are exactly as many additional-author, mismatched-author and no-author findings as before |
| AuditTheorems.RepairedFixed | core/management/commands/votes.py:123-142 | repairing a repaired group changes nothing and reports no action |
| AuditTheorems.ConvertIdempotent | core/management/commands/votes.py:114-143 | a second repair of a field leaves its votes as they are and reports no action |

## Left out

- Database access. The ORM query `field.vote_set.order_by('author_code_id', 'id')` is replaced by its ordered result, which is a parameter. The grouping makes no assumption about the order. Whether the database sorts NULL authors first or last is not modelled.
- `vote.delete()` and `vote.save()`. Each row is written one at a time in the source. Here `FieldVotes.Convert` replaces the whole vote list once, at the end.
- Output. Messages and totals written to stdout, their colouring, and the exact message text are left out. Each message is a constructor of `Finding` or `Action`, carrying the numbers it prints.
- `run_convert` is left out. It reads a confirmation from stdin, exits, and sums `len(msgs)`. The per-field result of `_convert_field` is modelled.
- `run_update`, `handle` and `add_arguments` are left out. They are I/O and dispatch, and `rules.update_fields` is not part of this model.
- Rules.Contribution: trust levels, votes and the weights 10 and 0.1 are exact reals, not floating point. Rounding and the order in which floats are added are not modelled.
- Rules.RankByScore: Python's `sorted` is stable, but the `Counter` it sorts is a Python 2 dictionary whose items come out in hash order, so the order of equal scores is not fixed by the program. The model picks among ties freely and promises only a non-increasing order, so the top entry among tied scores is not determined.
- Django models, views, forms, admin, templates, migrations and the import scripts are not part of this model.
- `core/tests.py` exercises `update_fields` and is not part of this model.
