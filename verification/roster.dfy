/**
 * Roster editing on the setup page (app/routes/index.tsx): the add form
 * checks the id's `NN-NNNN` format, then that it is not already listed,
 * and appends; delete filters a team out by id.
 */
module Roster {
  import opened Base
  import opened Types

  /** `/^\d{2}-\d{4}$/`: two ASCII digits, a hyphen, four ASCII digits, nothing else. */
  predicate ValidId(id: string) {
    && |id| == 7
    && IsDigit(id[0]) && IsDigit(id[1])
    && id[2] == '-'
    && IsDigit(id[3]) && IsDigit(id[4]) && IsDigit(id[5]) && IsDigit(id[6])
  }

  predicate Listed(teams: seq<Team>, id: string) {
    exists i :: 0 <= i < |teams| && teams[i].id == id
  }

  /** Every id is well-formed and no id appears twice. */
  predicate WellFormed(teams: seq<Team>) {
    && (forall i :: 0 <= i < |teams| ==> ValidId(teams[i].id))
    && DistinctIds(teams)
  }

  const InvalidIdError: string := "Invalid team ID"
  const DuplicateError: string := "Team already added"

  /** The page's state: the roster, the two inputs and the id field's error text. */
  datatype Form = Form(teams: seq<Team>, idInput: string, aliasInput: string, idError: string)

  /** Typing in the id field replaces its text and clears the error. */
  function EditId(f: Form, v: string): (r: Form)
    ensures r.idInput == v && r.idError == ""
    ensures r.teams == f.teams && r.aliasInput == f.aliasInput
  {
    f.(idInput := v, idError := "")
  }

  /** Typing in the alias field replaces its text; the alias never has an error to show. */
  function EditAlias(f: Form, v: string): (r: Form)
    ensures r.aliasInput == v
    ensures r.teams == f.teams && r.idInput == f.idInput && r.idError == f.idError
  {
    f.(aliasInput := v)
  }

  /**
   * `addTeam`: the format check comes first, then the duplicate check; a
   * rejection only sets the error text.  Success appends the team with the
   * alias as typed and clears both inputs.
   */
  function AddTeam(f: Form): (r: Form)
    ensures !ValidId(f.idInput) ==> r == f.(idError := InvalidIdError)
    ensures ValidId(f.idInput) && Listed(f.teams, f.idInput) ==> r == f.(idError := DuplicateError)
    ensures ValidId(f.idInput) && !Listed(f.teams, f.idInput) ==>
      && r.teams == f.teams + [Team(f.idInput, Some(f.aliasInput))]
      && r.idInput == "" && r.aliasInput == "" && r.idError == f.idError
  {
    if !ValidId(f.idInput) then f.(idError := InvalidIdError)
    else if Listed(f.teams, f.idInput) then f.(idError := DuplicateError)
    else f.(teams := f.teams + [Team(f.idInput, Some(f.aliasInput))], idInput := "", aliasInput := "")
  }

  /** `teams.filter((t) => t.id !== team.id)`. */
  function Remove(teams: seq<Team>, id: string): (r: seq<Team>)
    ensures forall i :: 0 <= i < |r| ==> r[i].id != id
    ensures forall t :: t in r <==> t in teams && t.id != id
    ensures |r| <= |teams|
  {
    if |teams| == 0 then []
    else if teams[0].id == id then Remove(teams[1..], id)
    else [teams[0]] + Remove(teams[1..], id)
  }

  /** `deleteTeam`: drops every team with the given team's id. */
  function DeleteTeam(f: Form, team: Team): (r: Form)
    ensures r.teams == Remove(f.teams, team.id)
    ensures r.idInput == f.idInput && r.aliasInput == f.aliasInput && r.idError == f.idError
  {
    f.(teams := Remove(f.teams, team.id))
  }

  /** Removal works piecewise, so it keeps the remaining teams in their order. */
  lemma {:induction false} RemoveAppend(a: seq<Team>, b: seq<Team>, id: string)
    ensures Remove(a + b, id) == Remove(a, id) + Remove(b, id)
  {
    if |a| == 0 {
      assert a + b == b;
    } else {
      assert (a + b)[0] == a[0] && (a + b)[1..] == a[1..] + b;
      RemoveAppend(a[1..], b, id);
    }
  }

  /** Removing an id nobody has changes nothing. */
  lemma {:induction false} RemoveAbsent(teams: seq<Team>, id: string)
    requires !Listed(teams, id)
    ensures Remove(teams, id) == teams
  {
    if |teams| > 0 {
      RemoveAbsent(teams[1..], id);
      assert teams == [teams[0]] + teams[1..];
    }
  }

  /** Adding then deleting the same team gives the roster back. */
  lemma AddThenDelete(f: Form, team: Team)
    requires ValidId(f.idInput) && !Listed(f.teams, f.idInput)
    requires team.id == f.idInput
    ensures DeleteTeam(AddTeam(f), team).teams == f.teams
  {
    RemoveAppend(f.teams, [Team(f.idInput, Some(f.aliasInput))], team.id);
    RemoveAbsent(f.teams, team.id);
  }

  predicate DistinctIds(teams: seq<Team>) {
    forall i, j :: 0 <= i < j < |teams| ==> teams[i].id != teams[j].id
  }

  /** A roster with a team in front has distinct ids iff the rest does and lacks that id. */
  lemma DistinctCons(x: Team, rest: seq<Team>)
    ensures DistinctIds([x] + rest) <==> DistinctIds(rest) && forall t :: t in rest ==> t.id != x.id
  {
    var r := [x] + rest;
    assert forall i :: 0 <= i < |rest| ==> r[i + 1] == rest[i];
    if DistinctIds(r) {
      forall t | t in rest ensures t.id != x.id {
        var k :| 0 <= k < |rest| && rest[k] == t;
        assert r[0] == x && r[k + 1] == t;
      }
    }
  }

  lemma {:induction false} RemoveKeepsDistinct(teams: seq<Team>, id: string)
    requires DistinctIds(teams)
    ensures DistinctIds(Remove(teams, id))
  {
    if |teams| > 0 {
      assert teams == [teams[0]] + teams[1..];
      DistinctCons(teams[0], teams[1..]);
      RemoveKeepsDistinct(teams[1..], id);
      if teams[0].id != id {
        DistinctCons(teams[0], Remove(teams[1..], id));
      }
    }
  }

  /** Adding and deleting keep the roster well-formed: valid ids, none twice. */
  lemma EditsKeepWellFormed(f: Form, team: Team)
    requires WellFormed(f.teams)
    ensures WellFormed(AddTeam(f).teams)
    ensures WellFormed(DeleteTeam(f, team).teams)
  {
    RemoveKeepsDistinct(f.teams, team.id);
    assert DistinctIds(f.teams);
    var r := AddTeam(f).teams;
    if ValidId(f.idInput) && !Listed(f.teams, f.idInput) {
      forall i, j | 0 <= i < j < |r| ensures r[i].id != r[j].id {
        if j == |f.teams| {
          assert r[i] == f.teams[i];
        } else {
          assert r[i] == f.teams[i] && r[j] == f.teams[j];
        }
      }
    }
  }
}
