/** The email gate at the top of the page and the two roles derived from the
    address (Cloksy_app.py:53-63). Nothing here is authentication: the page
    trusts whatever address is typed in. */
module Access {

  /** The organisational domain every session address must end with. */
  const Domain: string := "@axial.energy"
  const AdminPrefix: string := "admin@"
  const TeamLeadMarker: string := "-tl@"

  /** Python's `s.startswith(prefix)`. */
  predicate StartsWith(s: string, prefix: string)
  {
    |prefix| <= |s| && s[..|prefix|] == prefix
  }

  /** Python's `s.endswith(suffix)`. */
  predicate EndsWith(s: string, suffix: string)
  {
    |suffix| <= |s| && s[|s| - |suffix|..] == suffix
  }

  /** Python's `sub in s`, scanning start positions left to right. */
  predicate Contains(s: string, sub: string)
    decreases |s|
  {
    StartsWith(s, sub) || (|s| > 0 && Contains(s[1..], sub))
  }

  /** `sub` occurs in `s` at position `i`. */
  ghost predicate OccursAt(s: string, sub: string, i: int)
  {
    0 <= i && i + |sub| <= |s| && s[i..i + |sub|] == sub
  }

  /** The scan agrees with the plain definition of a substring occurrence. */
  lemma {:induction false} ContainsIff(s: string, sub: string)
    ensures Contains(s, sub) <==> exists i :: OccursAt(s, sub, i)
    decreases |s|
  {
    if StartsWith(s, sub) {
      assert OccursAt(s, sub, 0);
    } else if |s| == 0 {
    } else {
      ContainsIff(s[1..], sub);
      if exists i :: OccursAt(s, sub, i) {
        var i :| OccursAt(s, sub, i);
        assert i != 0;
        assert s[1..][i - 1..i - 1 + |sub|] == s[i..i + |sub|];
        assert OccursAt(s[1..], sub, i - 1);
      }
      if exists j :: OccursAt(s[1..], sub, j) {
        var j :| OccursAt(s[1..], sub, j);
        assert s[1..][j..j + |sub|] == s[j + 1..j + 1 + |sub|];
        assert OccursAt(s, sub, j + 1);
      }
    }
  }

  /** `is_admin` and `is_tl` of a session that passed the gate. */
  datatype Role = Role(isAdmin: bool, isTeamLead: bool)
  {
    /** The sidebar with the project form, the calendar form and the PTO approvals. */
    predicate Manages()
    {
      isAdmin || isTeamLead
    }
  }

  /** How the page reacts to the typed address: an empty field and a foreign
      domain both stop the page (the latter with an error message). */
  datatype Gate = NoEmail | WrongDomain | Admitted(role: Role)

  function Authenticate(email: string): (g: Gate)
  {
    if email == [] then NoEmail
    else if !EndsWith(email, Domain) then WrongDomain
    else Admitted(Role(StartsWith(email, AdminPrefix), Contains(email, TeamLeadMarker)))
  }

  /** A session may go on past the gate. */
  predicate PassesGate(email: string)
  {
    Authenticate(email).Admitted?
  }

  /** A session sees the management sidebar. */
  predicate CanManage(email: string)
  {
    Authenticate(email).Admitted? && Authenticate(email).role.Manages()
  }

  /** The gate: accepted exactly when the address ends with the domain; the
      empty field is told apart from a foreign address. */
  lemma AdmittedIff(email: string)
    ensures PassesGate(email) <==> EndsWith(email, Domain)
    ensures Authenticate(email).NoEmail? <==> email == []
    ensures Authenticate(email).WrongDomain? <==> email != [] && !EndsWith(email, Domain)
  {
  }

  /** The roles of an admitted address, stated with a substring occurrence
      rather than the scan, and the management sidebar iff either role. */
  lemma RolesIff(email: string)
    requires PassesGate(email)
    ensures Authenticate(email).role.isAdmin <==> StartsWith(email, AdminPrefix)
    ensures Authenticate(email).role.isTeamLead <==> exists i :: OccursAt(email, TeamLeadMarker, i)
    ensures CanManage(email) <==>
              StartsWith(email, AdminPrefix) || exists i :: OccursAt(email, TeamLeadMarker, i)
  {
    ContainsIff(email, TeamLeadMarker);
  }

  /** Without the domain neither the gate nor a role lets an address in: the
      admin prefix or the team-lead marker alone grants nothing. */
  lemma RolesNeedDomain(email: string)
    requires !EndsWith(email, Domain)
    ensures !PassesGate(email) && !CanManage(email)
  {
  }

  /** A team lead address: "-tl@" occurs right before the domain. */
  lemma {:induction false} TeamLeadExample(local: string)
    ensures CanManage(local + "-tl" + Domain)
  {
    var head := local + "-tl";
    var e := head + Domain;
    assert |e| - |Domain| == |head|;
    assert e[|head|..] == Domain by {
      forall k | 0 <= k < |Domain| ensures e[|head|..][k] == Domain[k] {
        assert e[|head| + k] == Domain[k];
      }
    }
    assert OccursAt(e, TeamLeadMarker, |local|) by {
      assert e[|local|] == '-' && e[|local| + 1] == 't' && e[|local| + 2] == 'l' && e[|local| + 3] == '@';
      assert e[|local|..|local| + 4] == TeamLeadMarker;
    }
    RolesIff(e);
  }
}
