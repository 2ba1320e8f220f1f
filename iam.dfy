/** The IAM part of the audit (listIams): a project's (role -> members) bindings are inverted
    into the `userRoles` dictionary (member -> accumulated roles), whose entries become the
    rows of the IAM section. */
module Iam {
  import opened Strings
  import opened Schema

  datatype Binding = Binding(role: string, members: seq<string>)

  /** One member occurrence in one binding, with that binding's trimmed role. */
  datatype Grant = Grant(member: string, role: string)

  function MemberGrants(role: string, members: seq<string>): seq<Grant>
  {
    seq(|members|, k requires 0 <= k < |members| => Grant(members[k], role))
  }

  /** Every member occurrence of every binding, in the order the double loop visits them. */
  function Grants(bindings: seq<Binding>): seq<Grant>
    decreases |bindings|
  {
    if bindings == [] then []
    else
      var last := bindings[|bindings| - 1];
      Grants(bindings[..|bindings| - 1]) + MemberGrants(LastSegment(last.role), last.members)
  }

  /** The members in the order each is first met: the order keys enter `userRoles`. */
  function FirstSeen(gs: seq<Grant>): seq<string>
    decreases |gs|
  {
    if gs == [] then []
    else
      var seen := FirstSeen(gs[..|gs| - 1]);
      var m := gs[|gs| - 1].member;
      if m in seen then seen else seen + [m]
  }

  /** The index of the first grant to `m`, or `|gs|` when there is none. */
  function FirstIndex(gs: seq<Grant>, m: string): (f: nat)
    ensures f <= |gs|
    ensures f < |gs| ==> gs[f].member == m
    ensures forall i :: 0 <= i < f ==> gs[i].member != m
    decreases |gs|
  {
    if gs == [] then 0
    else
      var pre := gs[..|gs| - 1];
      var f := FirstIndex(pre, m);
      if f < |pre| then f
      else if gs[|gs| - 1].member == m then |pre|
      else |gs|
  }

  /** The trimmed roles granted to `m`, in encounter order (once per occurrence). */
  function RolesFor(gs: seq<Grant>, m: string): seq<string>
    decreases |gs|
  {
    if gs == [] then []
    else
      var last := gs[|gs| - 1];
      RolesFor(gs[..|gs| - 1], m) + (if last.member == m then [last.role] else [])
  }

  /** One update of `userRoles[user]`: append `'; ' + role` when the current value is
      truthy, otherwise (absent, or the empty string) store the role. */
  function AddRole(current: string, role: string): string
  {
    if current != "" then current + "; " + role else role
  }

  /** The value `userRoles` ends up holding for a member granted `roles`, in that order. */
  function Accumulated(roles: seq<string>): string
    decreases |roles|
  {
    if roles == [] then ""
    else AddRole(Accumulated(roles[..|roles| - 1]), roles[|roles| - 1])
  }

  /** The double loop of listIams that fills `userRoles`. `order` is the order in which keys
      were first inserted, which is the order `Object.entries` returns them in. */
  method InvertBindings(bindings: seq<Binding>) returns (order: seq<string>, userRoles: map<string, string>)
    ensures order == FirstSeen(Grants(bindings))
    ensures forall m :: m in userRoles <==> m in order
    ensures forall m :: m in userRoles ==> userRoles[m] == Accumulated(RolesFor(Grants(bindings), m))
  {
    order, userRoles := [], map[];
    var i := 0;
    while i < |bindings|
      invariant 0 <= i <= |bindings|
      invariant Inverted(Grants(bindings[..i]), order, userRoles)
    {
      ghost var done := Grants(bindings[..i]);
      order, userRoles := AddMembers(done, LastSegment(bindings[i].role), bindings[i].members, order, userRoles);
      GrantsSnoc(bindings, i);
      i := i + 1;
    }
    assert bindings[..i] == bindings;
  }

  /** The inner loop of listIams: every member of one binding is granted that binding's
      trimmed role, in the order the binding lists them. */
  method AddMembers(ghost done: seq<Grant>, role: string, members: seq<string>,
                    order0: seq<string>, userRoles0: map<string, string>)
    returns (order: seq<string>, userRoles: map<string, string>)
    requires Inverted(done, order0, userRoles0)
    ensures Inverted(done + MemberGrants(role, members), order, userRoles)
  {
    order, userRoles := order0, userRoles0;
    var j := 0;
    MemberGrantsNone(done, role, members);
    while j < |members|
      invariant 0 <= j <= |members|
      invariant Inverted(done + MemberGrants(role, members[..j]), order, userRoles)
    {
      var user := members[j];
      ghost var gs := done + MemberGrants(role, members[..j]);
      MemberGrantsSnoc(done, role, members, j);
      InsertGrant(gs, Grant(user, role), order, userRoles);
      if user in userRoles && userRoles[user] != "" {
        userRoles := userRoles[user := userRoles[user] + "; " + role];
      } else {
        if user !in userRoles {
          order := order + [user];
        }
        userRoles := userRoles[user := role];
      }
      j := j + 1;
    }
    assert members[..j] == members;
  }

  lemma MemberGrantsNone(done: seq<Grant>, role: string, members: seq<string>)
    ensures done + MemberGrants(role, members[..0]) == done
  {
    assert MemberGrants(role, members[..0]) == [];
  }

  /** One more member of the binding under way adds its grant. */
  lemma MemberGrantsSnoc(done: seq<Grant>, role: string, members: seq<string>, j: nat)
    requires j < |members|
    ensures done + MemberGrants(role, members[..j + 1]) == (done + MemberGrants(role, members[..j])) + [Grant(members[j], role)]
  {
    assert MemberGrants(role, members[..j + 1]) == MemberGrants(role, members[..j]) + [Grant(members[j], role)];
  }

  /** Once all members of binding `i` are visited, the grants are those of the first `i + 1` bindings. */
  lemma GrantsSnoc(bindings: seq<Binding>, i: nat)
    requires i < |bindings|
    ensures Grants(bindings[..i + 1]) == Grants(bindings[..i]) + MemberGrants(LastSegment(bindings[i].role), bindings[i].members)
  {
    assert bindings[..i + 1][..i] == bindings[..i];
  }

  /** `order` and `userRoles` are what the loop has built from the grants `gs`. */
  ghost predicate Inverted(gs: seq<Grant>, order: seq<string>, userRoles: map<string, string>)
  {
    order == FirstSeen(gs) &&
    (forall m :: m in userRoles <==> m in order) &&
    (forall m :: m in userRoles ==> userRoles[m] == Accumulated(RolesFor(gs, m)))
  }

  /** One more grant adds its role to its own member's roles and leaves the others alone. */
  lemma RolesForSnoc(gs: seq<Grant>, g: Grant, m: string)
    ensures RolesFor(gs + [g], m) == RolesFor(gs, m) + (if g.member == m then [g.role] else [])
    ensures Accumulated(RolesFor(gs + [g], m)) ==
              if g.member == m then AddRole(Accumulated(RolesFor(gs, m)), g.role) else Accumulated(RolesFor(gs, m))
  {
    assert (gs + [g])[..|gs|] == gs;
    var mine := RolesFor(gs, m);
    assert (mine + [g.role])[..|mine|] == mine;
    if g.member == m {
      assert Accumulated(mine + [g.role]) == AddRole(Accumulated(mine), g.role);
    } else {
      assert mine + [] == mine;
    }
  }

  /** One step of the inner loop keeps `Inverted`. */
  lemma InsertGrant(gs: seq<Grant>, g: Grant, order: seq<string>, userRoles: map<string, string>)
    requires Inverted(gs, order, userRoles)
    ensures g.member in userRoles && userRoles[g.member] != "" ==>
              Inverted(gs + [g], order, userRoles[g.member := userRoles[g.member] + "; " + g.role])
    ensures !(g.member in userRoles && userRoles[g.member] != "") ==>
              Inverted(gs + [g], if g.member in userRoles then order else order + [g.member],
                       userRoles[g.member := g.role])
  {
    var gs' := gs + [g];
    assert gs'[..|gs'| - 1] == gs;
    assert FirstSeen(gs') == if g.member in order then order else order + [g.member];
    RolesForUnseen(gs);
    var updated := if g.member in userRoles && userRoles[g.member] != ""
                   then userRoles[g.member := userRoles[g.member] + "; " + g.role]
                   else userRoles[g.member := g.role];
    forall m | m in updated
      ensures updated[m] == Accumulated(RolesFor(gs', m))
    {
      RolesForSnoc(gs, g, m);
      if m == g.member && g.member !in userRoles {
        assert RolesFor(gs, m) == [];
      }
    }
  }

  /** Exactly the members of some grant appear in `FirstSeen`: those whose first grant exists. */
  lemma {:induction false} FirstSeenMembers(gs: seq<Grant>)
    ensures forall m :: m in FirstSeen(gs) <==> FirstIndex(gs, m) < |gs|
    decreases |gs|
  {
    if gs != [] {
      FirstSeenMembers(gs[..|gs| - 1]);
    }
  }

  /** A member that is not a key was granted no role. */
  lemma {:induction false} RolesForUnseen(gs: seq<Grant>)
    ensures forall m :: m !in FirstSeen(gs) ==> RolesFor(gs, m) == []
    decreases |gs|
  {
    if gs != [] {
      RolesForUnseen(gs[..|gs| - 1]);
    }
  }

  /** Every member gets one key: `FirstSeen` holds no member twice. */
  lemma {:induction false} FirstSeenDistinct(gs: seq<Grant>)
    ensures forall i, j :: 0 <= i < j < |FirstSeen(gs)| ==> FirstSeen(gs)[i] != FirstSeen(gs)[j]
    decreases |gs|
  {
    if gs != [] {
      FirstSeenDistinct(gs[..|gs| - 1]);
    }
  }

  /** Keys follow first-insertion order: each key's first grant comes before the next key's. */
  lemma {:induction false} FirstSeenOrder(gs: seq<Grant>)
    ensures forall k :: 0 <= k < |FirstSeen(gs)| ==> FirstIndex(gs, FirstSeen(gs)[k]) < |gs|
    ensures forall k, l :: 0 <= k < l < |FirstSeen(gs)| ==>
              FirstIndex(gs, FirstSeen(gs)[k]) < FirstIndex(gs, FirstSeen(gs)[l])
    decreases |gs|
  {
    if gs != [] {
      var pre := gs[..|gs| - 1];
      var m := gs[|gs| - 1].member;
      FirstSeenOrder(pre);
      FirstSeenMembers(pre);
      var seen := FirstSeen(pre);
      assert forall k :: 0 <= k < |seen| ==> FirstIndex(gs, seen[k]) == FirstIndex(pre, seen[k]);
      if m !in seen {
        assert FirstIndex(pre, m) == |pre|;
        assert FirstIndex(gs, m) == |pre|;
      }
    }
  }

  /** The value of a member whose roles are all non-empty is those roles joined by `'; '`. */
  lemma {:induction false} AccumulatedIsJoin(roles: seq<string>)
    requires forall i :: 0 <= i < |roles| ==> roles[i] != ""
    ensures Accumulated(roles) == Join("; ", roles)
    ensures roles != [] ==> Accumulated(roles) != ""
    decreases |roles|
  {
    if roles != [] {
      var pre := roles[..|roles| - 1];
      AccumulatedIsJoin(pre);
      JoinSnoc("; ", pre, roles[|roles| - 1]);
      assert pre + [roles[|roles| - 1]] == roles;
    }
  }

  /** The roles left once the leading empty ones are dropped. */
  function DropLeadingEmpty(roles: seq<string>): seq<string>
    decreases |roles|
  {
    if roles == [] then [] else if roles[0] == "" then DropLeadingEmpty(roles[1..]) else roles
  }

  lemma {:induction false} DropLeadingEmptySnoc(roles: seq<string>, r: string)
    ensures DropLeadingEmpty(roles + [r]) ==
              if DropLeadingEmpty(roles) == [] then (if r == "" then [] else [r])
              else DropLeadingEmpty(roles) + [r]
    decreases |roles|
  {
    if roles == [] {
      assert [r][1..] == [];
    } else {
      assert (roles + [r])[1..] == roles[1..] + [r];
      DropLeadingEmptySnoc(roles[1..], r);
    }
  }

  lemma {:induction false} DropLeadingEmptyStartsFull(roles: seq<string>)
    ensures DropLeadingEmpty(roles) != [] ==> DropLeadingEmpty(roles)[0] != ""
    decreases |roles|
  {
    if roles != [] && roles[0] == "" {
      DropLeadingEmptyStartsFull(roles[1..]);
    }
  }

  lemma {:induction false} JoinStartsWith(sep: string, xs: seq<string>)
    requires xs != []
    ensures |Join(sep, xs)| >= |xs[0]|
    decreases |xs|
  {
  }

  /** In general (empty roles are falsy in JavaScript) the value is the roles joined by `'; '`
      once the leading empty roles are dropped: an empty value is overwritten, not appended to. */
  lemma {:induction false} AccumulatedDropsLeadingEmpty(roles: seq<string>)
    ensures Accumulated(roles) == Join("; ", DropLeadingEmpty(roles))
    decreases |roles|
  {
    if roles != [] {
      var pre := roles[..|roles| - 1];
      var r := roles[|roles| - 1];
      assert pre + [r] == roles;
      AccumulatedDropsLeadingEmpty(pre);
      DropLeadingEmptySnoc(pre, r);
      var d := DropLeadingEmpty(pre);
      if d != [] {
        DropLeadingEmptyStartsFull(pre);
        JoinStartsWith("; ", d);
        JoinSnoc("; ", d, r);
      }
    }
  }

  /** One IAM row: the member key split at `:` into type and user, then its roles. */
  function IamRow(projectId: string, key: string, roles: string): (row: Row)
    ensures |row| == |Columns(Iams)| == 4 && row[0] == projectId && row[3] == roles
    ensures row[1] == SplitMember(key).userType && row[2] == SplitMember(key).user
  {
    var account := SplitMember(key);
    [projectId, account.userType, account.user, roles]
  }

  /** The IAM rows of one project: one per member, in first-insertion order. */
  function IamRows(projectId: string, bindings: seq<Binding>): seq<Row>
  {
    var gs := Grants(bindings);
    var order := FirstSeen(gs);
    seq(|order|, k requires 0 <= k < |order| => IamRow(projectId, order[k], Accumulated(RolesFor(gs, order[k]))))
  }

  /** The IAM rows of a project: one per member, in first-insertion order, holding the member's
      type and user and its trimmed roles joined by `'; '` (leading empty roles dropped). */
  lemma IamRowsAreMembers(projectId: string, bindings: seq<Binding>)
    ensures var gs := Grants(bindings); var order := FirstSeen(gs); var rows := IamRows(projectId, bindings);
      |rows| == |order| &&
      forall k :: 0 <= k < |rows| ==>
        rows[k] == [projectId, SplitMember(order[k]).userType, SplitMember(order[k]).user,
                    Join("; ", DropLeadingEmpty(RolesFor(gs, order[k])))]
  {
    var gs := Grants(bindings);
    var order := FirstSeen(gs);
    forall k | 0 <= k < |order|
      ensures Accumulated(RolesFor(gs, order[k])) == Join("; ", DropLeadingEmpty(RolesFor(gs, order[k])))
    {
      AccumulatedDropsLeadingEmpty(RolesFor(gs, order[k]));
    }
  }

  /** The grants of two bindings are those of the first, then those of the second. */
  lemma GrantsOfTwo(b0: Binding, b1: Binding)
    ensures Grants([b0, b1]) == MemberGrants(LastSegment(b0.role), b0.members) + MemberGrants(LastSegment(b1.role), b1.members)
  {
    var one, two := MemberGrants(LastSegment(b0.role), b0.members), MemberGrants(LastSegment(b1.role), b1.members);
    assert [b0][..0] == [];
    assert Grants([b0]) == Grants([]) + one;
    assert Grants([b0]) == one;
    assert [b0, b1][..1] == [b0];
    assert Grants([b0, b1]) == Grants([b0]) + two;
  }

  /** Members and roles of the grants `m1: r1`, `m1: r2`, `m2: r2`. */
  lemma ThreeGrants(m1: string, m2: string, r1: string, r2: string)
    requires m1 != m2
    ensures var gs := [Grant(m1, r1), Grant(m1, r2), Grant(m2, r2)];
      FirstSeen(gs) == [m1, m2] && RolesFor(gs, m1) == [r1, r2] && RolesFor(gs, m2) == [r2]
  {
    var g0, g1, g2 := Grant(m1, r1), Grant(m1, r2), Grant(m2, r2);
    var gs := [g0, g1, g2];
    assert gs[..2] == [g0, g1] && [g0, g1][..1] == [g0] && [g0][..0] == [];
    assert FirstSeen([g0]) == [m1];
    assert FirstSeen([g0, g1]) == [m1];
    assert RolesFor([g0], m1) == [r1] && RolesFor([g0], m2) == [];
    assert RolesFor([g0, g1], m1) == [r1, r2] && RolesFor([g0, g1], m2) == [];
  }

  /** The grants of the example's two bindings: `m1` with the first role, then `m1` and `m2`
      with the second, each role trimmed. */
  lemma TwoBindingsGrants(p1: string, p2: string, m1: string, m2: string)
    ensures Grants([Binding(p1, [m1]), Binding(p2, [m1, m2])])
            == [Grant(m1, LastSegment(p1)), Grant(m1, LastSegment(p2)), Grant(m2, LastSegment(p2))]
  {
    GrantsOfTwo(Binding(p1, [m1]), Binding(p2, [m1, m2]));
    GrantsOfMembers(LastSegment(p1), LastSegment(p2), m1, m2);
  }

  lemma GrantsOfMembers(r1: string, r2: string, m1: string, m2: string)
    ensures MemberGrants(r1, [m1]) + MemberGrants(r2, [m1, m2]) == [Grant(m1, r1), Grant(m1, r2), Grant(m2, r2)]
  {
    assert MemberGrants(r1, [m1]) == [Grant(m1, r1)];
    assert MemberGrants(r2, [m1, m2]) == [Grant(m1, r2), Grant(m2, r2)];
  }

  /** A member granted `r1` then `r2` holds `r1; r2`; one granted only `r2` holds `r2`. */
  lemma AccumulatedOfTwo(r1: string, r2: string)
    requires r1 != ""
    ensures Accumulated([r1, r2]) == r1 + "; " + r2 && Accumulated([r2]) == r2
  {
    assert [r1, r2][..1] == [r1] && [r1][..0] == [] && [r2][..0] == [];
    assert Accumulated([r1]) == AddRole("", r1) == r1;
  }

  /** An example: member `m1` is granted role `r1`, then `r2`
      together with `m2`. `m1` comes first with `r1; r2` (the script joins with a semicolon and
      a space), then `m2` with `r2`; each member is split into its type and user. */
  lemma IamRowsOfTwoBindings(projectId: string, dir: string, r1: string, r2: string,
                             t1: string, u1: string, t2: string, u2: string)
    requires '/' !in r1 && '/' !in r2 && r1 != ""
    requires ':' !in t1 && ':' !in u1 && ':' !in t2 && ':' !in u2 && t1 + ":" + u1 != t2 + ":" + u2
    ensures IamRows(projectId, [Binding(dir + "/" + r1, [t1 + ":" + u1]),
                                Binding(dir + "/" + r2, [t1 + ":" + u1, t2 + ":" + u2])])
            == [[projectId, t1, u1, r1 + "; " + r2], [projectId, t2, u2, r2]]
  {
    var m1, m2 := t1 + ":" + u1, t2 + ":" + u2;
    var bindings := [Binding(dir + "/" + r1, [m1]), Binding(dir + "/" + r2, [m1, m2])];
    var gs := [Grant(m1, r1), Grant(m1, r2), Grant(m2, r2)];
    LastSegmentAfterSlash(dir, r1);
    LastSegmentAfterSlash(dir, r2);
    TwoBindingsGrants(dir + "/" + r1, dir + "/" + r2, m1, m2);
    ThreeGrants(m1, m2, r1, r2);
    AccumulatedOfTwo(r1, r2);
    IamRowsOfTwoKeys(projectId, bindings, m1, m2, r1 + "; " + r2, r2);
    SplitMemberOfPair(t1, u1);
    SplitMemberOfPair(t2, u2);
    var row1, row2 := IamRow(projectId, m1, r1 + "; " + r2), IamRow(projectId, m2, r2);
    assert row1 == [projectId, t1, u1, r1 + "; " + r2];
    assert row2 == [projectId, t2, u2, r2];
  }

  /** Bindings whose members are `m1` then `m2` give one row for each, in that order. */
  lemma IamRowsOfTwoKeys(projectId: string, bindings: seq<Binding>, m1: string, m2: string, v1: string, v2: string)
    requires FirstSeen(Grants(bindings)) == [m1, m2]
    requires Accumulated(RolesFor(Grants(bindings), m1)) == v1 && Accumulated(RolesFor(Grants(bindings), m2)) == v2
    ensures IamRows(projectId, bindings) == [IamRow(projectId, m1, v1), IamRow(projectId, m2, v2)]
  {
  }
}
