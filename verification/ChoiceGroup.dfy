// Choice groups of boolean symbols: sym_calc_choice, sym_choice_default, and the parts of
// sym_calc_value, sym_tristate_within_range and sym_set_tristate_value for choices (symbol.c).
module ChoiceGroup {
  import opened Wrappers
  import opened Expr

  // The values of everything outside the group that its calculation looks at: the condition of
  // the choice's prompt, the members' own conditions, and the conditions of the defaults.
  datatype Outside = Outside(prompt: Tri, conds: map<Sym, Tri>, defaultConds: seq<Tri>)

  // For boolean symbols m counts as y.
  function Bool(t: Tri): Tri { if t == MOD then YES else t }

  // A member is visible if its own condition and the choice, which all its prompts depend on,
  // allow it.
  function MemberVisible(o: Outside, m: Sym, choice: Tri): Tri
    requires m in o.conds
  {
    Bool(Min(choice, o.conds[m]))
  }

  // rev_dep of the choice: a choice that is not optional is selected by its own visibility.
  function ChoiceRev(o: Outside, optional: bool): Tri {
    Bool(if optional then NO else Min(o.prompt, MOD))
  }

  // The value of the choice before a member is looked for.
  function ChoiceBase(o: Outside, optional: bool, hasUser: bool, user: Tri): Tri {
    var vis := Bool(o.prompt);
    Bool(Max(if vis != NO && hasUser then Min(user, vis) else NO, ChoiceRev(o, optional)))
  }

  // A user value never makes a choice that is y anyway smaller.
  lemma BaseWithUser(o: Outside, optional: bool, hasUser: bool, user: Tri)
    ensures ChoiceBase(o, optional, hasUser, user) in {YES, NO}
    ensures ChoiceBase(o, optional, hasUser, user) == YES ==> ChoiceBase(o, optional, true, user) == YES
    ensures forall m, c: Tri | m in o.conds :: MemberVisible(o, m, c) in {YES, NO}
  {
  }

  // A choice with a visible prompt is y, unless it is optional and the user has not asked for it.
  lemma BaseExactly(o: Outside, optional: bool, hasUser: bool, user: Tri)
    ensures ChoiceBase(o, optional, hasUser, user) == YES
      <==> o.prompt != NO && (!optional || (hasUser && user != NO))
    ensures ChoiceRev(o, optional) < Bool(o.prompt) <==> o.prompt != NO && optional
  {
  }

  // A member can be chosen while the choice is not n and its own condition is met.
  lemma VisibleExactly(o: Outside, m: Sym, choice: Tri)
    requires m in o.conds
    ensures MemberVisible(o, m, choice) == if choice != NO && o.conds[m] != NO then YES else NO
  {
  }

  function FirstVisible(o: Outside, ms: seq<Sym>): (r: Option<Sym>)
    requires forall m <- ms :: m in o.conds
    ensures r.Some? ==> exists i ::
      && 0 <= i < |ms| && ms[i] == r.value && MemberVisible(o, ms[i], YES) != NO
      && forall j | 0 <= j < i :: MemberVisible(o, ms[j], YES) == NO
    ensures r.None? ==> forall m <- ms :: MemberVisible(o, m, YES) == NO
  {
    if ms == [] then None
    else if MemberVisible(o, ms[0], YES) != NO then Some(ms[0])
    else
      var r := FirstVisible(o, ms[1..]);
      assert r.Some? ==> exists i ::
        && 1 <= i < |ms| && ms[i] == r.value && MemberVisible(o, ms[i], YES) != NO
        && forall j | 0 <= j < i :: MemberVisible(o, ms[j], YES) == NO by {
        if r.Some? {
          var i :| 0 <= i < |ms[1..]| && ms[1..][i] == r.value && MemberVisible(o, ms[1..][i], YES) != NO
            && forall j | 0 <= j < i :: MemberVisible(o, ms[1..][j], YES) == NO;
          assert ms[i + 1] == r.value;
          assert forall j | 1 <= j < i + 1 :: ms[j] == ms[1..][j - 1];
        }
      }
      r
  }

  // A default counts if its condition is met and it is visible.
  predicate Applies(o: Outside, m: Sym, cond: Tri)
    requires m in o.conds
  {
    cond != NO && MemberVisible(o, m, YES) != NO
  }

  function FirstDefault(o: Outside, defaults: seq<Sym>, conds: seq<Tri>): (r: Option<Sym>)
    requires |defaults| == |conds| && forall m <- defaults :: m in o.conds
    ensures r.Some? ==> exists i ::
      0 <= i < |defaults| && defaults[i] == r.value && Applies(o, defaults[i], conds[i])
      && forall j | 0 <= j < i :: !Applies(o, defaults[j], conds[j])
    ensures r.None? ==> forall i | 0 <= i < |defaults| :: !Applies(o, defaults[i], conds[i])
  {
    if defaults == [] then None
    else if Applies(o, defaults[0], conds[0]) then Some(defaults[0])
    else
      var r := FirstDefault(o, defaults[1..], conds[1..]);
      assert r.Some? ==> exists i ::
        1 <= i < |defaults| && defaults[i] == r.value && Applies(o, defaults[i], conds[i])
        && forall j | 0 <= j < i :: !Applies(o, defaults[j], conds[j]) by {
        if r.Some? {
          var i :| 0 <= i < |defaults[1..]| && defaults[1..][i] == r.value
            && Applies(o, defaults[1..][i], conds[1..][i])
            && forall j | 0 <= j < i :: !Applies(o, defaults[1..][j], conds[1..][j]);
          assert defaults[i + 1] == r.value;
          assert forall j | 1 <= j < i + 1 :: defaults[j] == defaults[1..][j - 1] && conds[j] == conds[1..][j - 1];
        }
      }
      r
  }

  // The loops over all defaults and over all members.
  lemma {:induction false} DefaultStep(o: Outside, defaults: seq<Sym>, conds: seq<Tri>, i: nat)
    requires |defaults| == |conds| && i < |defaults| && forall m <- defaults :: m in o.conds
    ensures FirstDefault(o, defaults[i..], conds[i..])
      == if conds[i] != NO && MemberVisible(o, defaults[i], YES) != NO then Some(defaults[i])
         else FirstDefault(o, defaults[i + 1..], conds[i + 1..])
  {
    assert defaults[i..][0] == defaults[i] && defaults[i..][1..] == defaults[i + 1..];
    assert conds[i..][0] == conds[i] && conds[i..][1..] == conds[i + 1..];
  }

  lemma {:induction false} VisibleStep(o: Outside, ms: seq<Sym>, i: nat)
    requires i < |ms| && forall m <- ms :: m in o.conds
    ensures FirstVisible(o, ms[i..])
      == if MemberVisible(o, ms[i], YES) != NO then Some(ms[i]) else FirstVisible(o, ms[i + 1..])
  {
    assert ms[i..][0] == ms[i] && ms[i..][1..] == ms[i + 1..];
  }

  lemma NoneLeft(o: Outside)
    ensures FirstDefault(o, [], []) == None && FirstVisible(o, []) == None
  {
  }

  // The choice has been calculated: if it is y, a visible member is selected, the one the user
  // chose last if that is visible, and the choice would be y with its user value as well.
  ghost predicate Settled(o: Outside, withUser: Tri, userMember: Option<Sym>, curr: Tri, selected: Option<Sym>) {
    && (curr == YES || curr == NO)
    && (curr == YES ==> selected.Some? && selected.value in o.conds && MemberVisible(o, selected.value, YES) == YES)
    && (curr == YES ==> withUser == YES)
    && (curr == NO ==> selected.None?)
    && ((curr == YES && userMember.Some? && userMember.value in o.conds
         && MemberVisible(o, userMember.value, YES) != NO) ==> selected == userMember)
  }

  // base is the value of the choice before a member was looked for, and sel what was found.
  lemma SettledNow(o: Outside, base: Tri, withUser: Tri, userMember: Option<Sym>, sel: Option<Sym>)
    requires base in {YES, NO} && (base == YES ==> withUser == YES) && (base == NO ==> sel.None?)
    requires sel.Some? ==> sel.value in o.conds && MemberVisible(o, sel.value, YES) != NO
    requires (base == YES && userMember.Some? && userMember.value in o.conds
              && MemberVisible(o, userMember.value, YES) != NO) ==> sel == userMember
    ensures Settled(o, withUser, userMember, if sel.Some? then YES else NO, sel)
  {
  }

  lemma SettledFor(o: Outside, withUser: Tri, withUser': Tri, userMember: Option<Sym>, curr: Tri, selected: Option<Sym>)
    requires curr == YES && withUser == YES ==> withUser' == YES
    ensures Settled(o, withUser, userMember, curr, selected) ==> Settled(o, withUser', userMember, curr, selected)
  {
  }

  // What has been calculated for the members done.
  ghost predicate Cached(o: Outside, curr: Tri, selected: Option<Sym>, done: set<Sym>, visible: map<Sym, Tri>,
                         value: map<Sym, Tri>) {
    && done <= o.conds.Keys && done <= visible.Keys && done <= value.Keys
    && (forall m <- done :: visible[m] == MemberVisible(o, m, curr))
    && (forall m <- done :: value[m] == if curr == YES && selected == Some(m) then YES else NO)
  }

  lemma CachedStep(o: Outside, withUser: Tri, userMember: Option<Sym>, curr: Tri, selected: Option<Sym>, done: set<Sym>,
                   visible: map<Sym, Tri>, value: map<Sym, Tri>, m: Sym)
    requires Cached(o, curr, selected, done, visible, value) && Settled(o, withUser, userMember, curr, selected)
    requires m in o.conds
    ensures var v := MemberVisible(o, m, curr);
      Cached(o, curr, selected, done + {m}, visible[m := v],
             value[m := if v == YES && selected == Some(m) then YES else NO])
  {
  }

  lemma CachedNone(o: Outside, curr: Tri, selected: Option<Sym>, visible: map<Sym, Tri>, value: map<Sym, Tri>)
    ensures Cached(o, curr, selected, {}, visible, value)
  {
  }

  function VisibleMembers(visible: map<Sym, Tri>): set<Sym> { set m | m in visible && visible[m] != NO }

  class Choice {
    const members: seq<Sym>
    const optional: bool
    const defaults: seq<Sym>
    var outside: Outside
    // SYMBOL_DEF_USER, def[S_DEF_USER].tri and def[S_DEF_USER].val of the choice
    var hasUser: bool
    var userTri: Tri
    var userMember: Option<Sym>
    // the members with SYMBOL_DEF_USER, and their def[S_DEF_USER].tri
    var memberUser: set<Sym>
    var memberTri: map<Sym, Tri>
    // SYMBOL_VALID, curr.tri and curr.val of the choice
    var valid: bool
    var curr: Tri
    var selected: Option<Sym>
    // visible, SYMBOL_VALID and curr.tri of the members
    var visible: map<Sym, Tri>
    var memberValid: set<Sym>
    var value: map<Sym, Tri>

    ghost predicate Shaped(o: Outside) {
      && o.conds.Keys == (set m | m in members) && |o.defaultConds| == |defaults|
      && (forall i, j | 0 <= i < j < |members| :: members[i] != members[j])
      && (forall d <- defaults :: d in members)
    }

    // What is selected while the choice is y: the member the user chose last, if it is visible, or
    // the first default that applies, or the first visible member.
    ghost function Selection(o: Outside, user: Option<Sym>): Option<Sym>
      requires Shaped(o)
    {
      InShape(o);
      if user.Some? && user.value in o.conds && MemberVisible(o, user.value, YES) != NO then user
      else if FirstDefault(o, defaults, o.defaultConds).Some? then FirstDefault(o, defaults, o.defaultConds)
      else FirstVisible(o, members)
    }

    lemma InShape(o: Outside)
      requires Shaped(o)
      ensures |o.defaultConds| == |defaults| && (forall m <- members :: m in o.conds)
      ensures forall d <- defaults :: d in o.conds
    {
      assert forall m <- members :: m in set x | x in members;
    }

    ghost predicate DefaultApplies(o: Outside, i: int)
      requires Shaped(o)
    {
      InShape(o);
      0 <= i < |defaults| && Applies(o, defaults[i], o.defaultConds[i])
    }

    ghost predicate MemberShows(o: Outside, i: int)
      requires Shaped(o)
    {
      InShape(o);
      0 <= i < |members| && MemberVisible(o, members[i], YES) != NO
    }

    lemma DefaultsExactly(o: Outside)
      requires Shaped(o)
      ensures |o.defaultConds| == |defaults| && forall d <- defaults :: d in o.conds
      ensures forall i | DefaultApplies(o, i) && forall j | 0 <= j < i :: !DefaultApplies(o, j) ::
        FirstDefault(o, defaults, o.defaultConds) == Some(defaults[i])
      ensures FirstDefault(o, defaults, o.defaultConds).Some? <==> exists i :: DefaultApplies(o, i)
    {
      InShape(o);
      hide MemberVisible, Applies, FirstDefault;
      var d := FirstDefault(o, defaults, o.defaultConds);
      if d.Some? {
        var i :| 0 <= i < |defaults| && defaults[i] == d.value && Applies(o, defaults[i], o.defaultConds[i])
          && forall j | 0 <= j < i :: !Applies(o, defaults[j], o.defaultConds[j]);
        assert DefaultApplies(o, i);
      }
    }

    lemma MembersExactly(o: Outside)
      requires Shaped(o)
      ensures forall m <- members :: m in o.conds
      ensures forall i | MemberShows(o, i) && forall j | 0 <= j < i :: !MemberShows(o, j) ::
        FirstVisible(o, members) == Some(members[i])
      ensures FirstVisible(o, members).Some? <==> exists i :: MemberShows(o, i)
    {
      InShape(o);
      hide MemberVisible, FirstVisible;
      var v := FirstVisible(o, members);
      if v.Some? {
        var i :| 0 <= i < |members| && members[i] == v.value && MemberVisible(o, members[i], YES) != NO
          && forall j | 0 <= j < i :: MemberVisible(o, members[j], YES) == NO;
        assert MemberShows(o, i);
      }
    }

    // Without a visible member of the user, the first default that applies is selected, and where none
    // applies the first member that is visible.
    lemma SelectionExactly(o: Outside, user: Option<Sym>)
      requires Shaped(o) && (user.Some? && user.value in o.conds ==> MemberVisible(o, user.value, YES) == NO)
      ensures forall i | DefaultApplies(o, i) && forall j | 0 <= j < i :: !DefaultApplies(o, j) ::
        Selection(o, user) == Some(defaults[i])
      ensures (forall i :: !DefaultApplies(o, i)) ==>
        && (forall i | MemberShows(o, i) && forall j | 0 <= j < i :: !MemberShows(o, j) ::
              Selection(o, user) == Some(members[i]))
        && ((forall i :: !MemberShows(o, i)) ==> Selection(o, user) == None)
    {
      hide Choice.DefaultApplies, Choice.MemberShows, FirstDefault, FirstVisible, MemberVisible;
      DefaultsExactly(o);
      MembersExactly(o);
    }

    lemma SelectionOfUser(o: Outside, user: Option<Sym>)
      requires Shaped(o)
      ensures user.Some? && user.value in o.conds && MemberVisible(o, user.value, YES) != NO ==>
        Selection(o, user) == user
    {
    }

    ghost predicate Chosen()
      requires Shaped(outside)
      reads this
    {
      curr == YES ==> selected == Selection(outside, userMember)
    }

    ghost predicate Ok()
      reads this
    {
      && Formed()
      && (valid ==> Settled(outside, ChoiceBase(outside, optional, true, userTri), userMember, curr, selected))
      && (valid ==> Chosen())
      && (memberValid != {} ==> valid)
    }

    ghost predicate Formed()
      reads this
    {
      && Shaped(outside) && memberUser <= outside.conds.Keys
      && visible.Keys == value.Keys == outside.conds.Keys
      && (userMember.Some? ==> userMember.value in outside.conds)
      && Cached(outside, curr, selected, memberValid, visible, value)
    }

    constructor (members: seq<Sym>, optional: bool, defaults: seq<Sym>, o: Outside)
      requires o.conds.Keys == (set m | m in members) && |o.defaultConds| == |defaults|
      requires forall i, j | 0 <= i < j < |members| :: members[i] != members[j]
      requires forall d <- defaults :: d in members
      ensures Ok() && this.members == members && this.defaults == defaults && outside == o
    {
      this.members, this.optional, this.defaults, outside := members, optional, defaults, o;
      hasUser, userTri, userMember, memberUser, memberTri := false, NO, None, {}, map[];
      valid, curr, selected, memberValid := false, NO, None, {};
      visible, value := map m | m in members :: NO, map m | m in members :: NO;
    }

    // sym_calc_visibility for all members; tells whether all visible ones have a user value.
    method MembersVisibility() returns (allUser: bool)
      requires Ok() && !valid && memberValid == {}
      modifies this`visible
      ensures Ok() && forall m <- members :: visible[m] == MemberVisible(outside, m, curr)
      ensures allUser <==> forall m <- members :: visible[m] != NO ==> m in memberUser
    {
      hide MemberVisible, ChoiceBase, Cached, Choice.Shaped, Settled;
      InGroup();
      allUser := true;
      var i := 0;
      while i < |members|
        invariant 0 <= i <= |members| && Ok()
        invariant forall j | 0 <= j < i :: visible[members[j]] == MemberVisible(outside, members[j], curr)
        invariant allUser <==> forall j | 0 <= j < i :: visible[members[j]] != NO ==> members[j] in memberUser
      {
        var m := members[i];
        visible := visible[m := MemberVisible(outside, m, curr)];
        CachedNone(outside, curr, selected, visible, value);
        if visible[m] != NO {
          allUser := allUser && m in memberUser;
        }
        i := i + 1;
      }
    }

    lemma InGroup()
      requires Ok()
      ensures (forall m :: m in members <==> m in outside.conds) && memberValid <= outside.conds.Keys
      ensures visible.Keys == value.Keys == outside.conds.Keys
    {
    }

    lemma DefaultsShaped()
      requires Ok()
      ensures |outside.defaultConds| == |defaults| && (forall d <- defaults :: d in members)
      ensures forall m <- members :: m in outside.conds && m in visible
    {
      assert forall m <- members :: m in set x | x in members;
    }

    // sym_choice_default
    method ChoiceDefault() returns (def: Option<Sym>)
      requires Ok() && forall m <- members :: visible[m] == MemberVisible(outside, m, YES)
      ensures def == if FirstDefault(outside, defaults, outside.defaultConds).Some?
                     then FirstDefault(outside, defaults, outside.defaultConds) else FirstVisible(outside, members)
    {
      hide Choice.Ok, MemberVisible, FirstDefault, FirstVisible, Applies;
      DefaultsShaped();
      assert defaults[0..] == defaults && outside.defaultConds[0..] == outside.defaultConds && members[0..] == members;
      var i := 0;
      while i < |defaults|
        invariant 0 <= i <= |defaults|
        invariant FirstDefault(outside, defaults, outside.defaultConds)
          == FirstDefault(outside, defaults[i..], outside.defaultConds[i..])
      {
        DefaultStep(outside, defaults, outside.defaultConds, i);
        if outside.defaultConds[i] != NO && visible[defaults[i]] != NO {
          return Some(defaults[i]);
        }
        i := i + 1;
      }
      NoneLeft(outside);
      i := 0;
      while i < |members|
        invariant 0 <= i <= |members|
        invariant FirstVisible(outside, members) == FirstVisible(outside, members[i..])
      {
        VisibleStep(outside, members, i);
        if visible[members[i]] != NO {
          return Some(members[i]);
        }
        i := i + 1;
      }
      return None;
    }

    // sym_calc_choice
    method CalcSelected() returns (sel: Option<Sym>)
      requires Ok() && !valid && memberValid == {} && curr == YES
      modifies this`visible, this`hasUser
      ensures Ok()
      ensures sel.Some? ==> sel.value in members && MemberVisible(outside, sel.value, YES) != NO
      ensures sel.None? ==> forall m <- members :: MemberVisible(outside, m, YES) == NO
      ensures Shaped(outside) && sel == Selection(outside, userMember)
      // a visible member without user value makes the choice new again
      ensures hasUser
        <==> old(hasUser) && forall m <- members :: MemberVisible(outside, m, YES) != NO ==> m in memberUser
    {
      hide MemberVisible, ChoiceBase, FirstVisible, FirstDefault, Cached, Choice.Shaped, Settled;
      InGroup();
      DefaultsShaped();
      var allUser := MembersVisibility();
      hasUser := hasUser && allUser;
      if userMember.Some? && visible[userMember.value] != NO {
        return userMember;
      }
      sel := ChoiceDefault();
    }

    // sym_calc_value of the choice
    method CalcChoice()
      requires Ok()
      modifies this`valid, this`curr, this`selected, this`visible, this`hasUser
      ensures Ok() && valid
      ensures old(valid) ==> curr == old(curr) && selected == old(selected) && hasUser == old(hasUser)
      // the choice is y exactly if it may be and some member is visible
      ensures !old(valid) ==>
        (curr == YES <==> ChoiceBase(outside, optional, old(hasUser), userTri) == YES
                          && exists m <- members :: m in outside.conds && MemberVisible(outside, m, YES) != NO)
      // and is new unless the user gave it and all visible members a value
      ensures !old(valid) ==>
        (hasUser <==> old(hasUser) && (ChoiceBase(outside, optional, old(hasUser), userTri) == YES ==> AllUser()))
      ensures Shaped(outside) && (curr == YES ==> selected == Selection(outside, userMember))
    {
      hide MemberVisible, ChoiceBase, Cached, Choice.Shaped, Settled, Choice.Selection;
      if !valid {
        CalcNew();
      }
    }

    // Every visible member has a user value.
    ghost predicate AllUser()
      reads this`outside, this`memberUser
    {
      forall m <- members :: m in outside.conds && MemberVisible(outside, m, YES) != NO ==> m in memberUser
    }

    method CalcNew()
      requires Ok() && !valid
      modifies this`valid, this`curr, this`selected, this`visible, this`hasUser
      ensures Ok() && valid
      ensures curr == YES
        <==> ChoiceBase(outside, optional, old(hasUser), userTri) == YES
             && exists m <- members :: m in outside.conds && MemberVisible(outside, m, YES) != NO
      ensures hasUser <==> old(hasUser) && (ChoiceBase(outside, optional, old(hasUser), userTri) == YES ==> AllUser())
    {
      hide MemberVisible, ChoiceBase, Cached, Choice.Shaped, Settled, Choice.Selection;
      InGroup();
      BaseWithUser(outside, optional, hasUser, userTri);
      ghost var base := ChoiceBase(outside, optional, hasUser, userTri);
      curr, selected := ChoiceBase(outside, optional, hasUser, userTri), None;
      CachedNone(outside, curr, selected, visible, value);
      if curr == YES {
        SelectMember();
        SelectionOfUser(outside, userMember);
      }
      SettledNow(outside, base, ChoiceBase(outside, optional, true, userTri), userMember, selected);
      valid := true;
    }

    // The choice is y only with a member that is selected.
    method SelectMember()
      requires Ok() && !valid && memberValid == {} && curr == YES
      modifies this`curr, this`selected, this`visible, this`hasUser
      ensures Ok() && curr == if selected.Some? then YES else NO
      ensures selected.Some? <==> exists m <- members :: m in outside.conds && MemberVisible(outside, m, YES) != NO
      ensures selected.Some? ==> selected.value in outside.conds && MemberVisible(outside, selected.value, YES) != NO
      ensures Shaped(outside) && selected == Selection(outside, userMember)
      ensures hasUser
        <==> old(hasUser) && forall m <- members :: MemberVisible(outside, m, YES) != NO ==> m in memberUser
    {
      hide MemberVisible, ChoiceBase, Cached, Choice.Shaped, Settled, Choice.Selection;
      InGroup();
      selected := CalcSelected();
      if selected.None? {
        curr := NO;
      }
      CachedNone(outside, curr, selected, visible, value);
    }

    // sym_calc_value of a member; its visibility asks for the choice first.
    method CalcMember(m: Sym)
      requires Ok() && m in members
      modifies this`valid, this`curr, this`selected, this`visible, this`hasUser, this`memberValid, this`value
      ensures Ok() && valid && m in memberValid && old(memberValid) <= memberValid
      ensures old(valid) ==> curr == old(curr) && selected == old(selected)
    {
      hide MemberVisible, ChoiceBase, Cached, Settled, Choice.Shaped, Choice.Ok;
      CalcChoice();
      if m !in memberValid {
        CacheMember(m);
      }
    }

    // The value of a member of a choice that has been calculated.
    method CacheMember(m: Sym)
      requires Ok() && valid && m in members
      modifies this`visible, this`memberValid, this`value
      ensures Ok() && memberValid == old(memberValid) + {m}
    {
      hide MemberVisible, ChoiceBase, Cached, Settled, Choice.Shaped;
      InGroup();
      CachedStep(outside, ChoiceBase(outside, optional, true, userTri), userMember, curr, selected,
                 memberValid, visible, value, m);
      visible := visible[m := MemberVisible(outside, m, curr)];
      // an invisible member has neither a select, an imply nor a default
      value := value[m := if visible[m] == YES && selected == Some(m) then YES else NO];
      memberValid := memberValid + {m};
    }

    // All members have been calculated.
    ghost predicate Complete()
      reads this
    {
      valid && memberValid == outside.conds.Keys
    }

    // Calculates all members, in any order.
    method CalcAll(order: seq<Sym>)
      requires Ok() && (forall m <- order :: m in members) && (forall m <- members :: m in order)
      modifies this`valid, this`curr, this`selected, this`visible, this`hasUser, this`memberValid, this`value
      ensures Ok() && Complete()
      ensures old(valid) ==> curr == old(curr) && selected == old(selected)
    {
      hide MemberVisible, ChoiceBase, Cached, Settled, Choice.Shaped;
      InGroup();
      CalcChoice();
      var i := 0;
      while i < |order|
        invariant 0 <= i <= |order| && Ok() && valid && (old(valid) ==> curr == old(curr) && selected == old(selected))
        invariant forall j | 0 <= j < i :: order[j] in memberValid
      {
        CalcMember(order[i]);
        i := i + 1;
      }
      InGroup();
      assert forall m <- outside.conds.Keys :: m in members;
    }

    // The choice is y exactly if one member is; that member is visible and is the selected one.
    ghost predicate Exclusive()
      requires Ok() && Complete()
      reads this
    {
      && (curr == YES ==> selected.Some? && selected.value in members
                          && value[selected.value] == YES && visible[selected.value] == YES
                          && forall m <- members | m != selected.value :: value[m] == NO)
      && (curr != YES ==> forall m <- members :: value[m] == NO)
    }

    lemma AlwaysExclusive()
      requires Ok() && Complete()
      ensures Exclusive()
    {
      InGroup();
    }

    // sym_clear_all_valid, after which the rest of the configuration may look different
    method Change(o: Outside)
      requires Ok() && o.conds.Keys == outside.conds.Keys && |o.defaultConds| == |outside.defaultConds|
      modifies this`outside, this`valid, this`memberValid
      ensures Ok() && !valid && outside == o
    {
      outside, valid, memberValid := o, false, {};
    }

    // sym_tristate_within_range of a member
    predicate MemberWithinRange(m: Sym, val: Tri)
      requires m in visible
      reads this`visible
    {
      visible[m] != NO && val != MOD && (if visible[m] == YES then val == YES else val <= visible[m])
    }

    lemma MemberCached(m: Sym)
      requires Ok() && Complete() && m in members
      ensures m in outside.conds && visible[m] in {NO, YES} && value[m] in {NO, YES}
      ensures visible[m] == YES ==>
        curr == YES && MemberVisible(outside, m, YES) == YES && ChoiceBase(outside, optional, true, userTri) == YES
      ensures value[m] == YES ==> visible[m] == YES
      ensures value[m] == YES ==>
        && Settled(outside, ChoiceBase(outside, optional, true, userTri), Some(m), curr, selected)
        && Shaped(outside) && selected == Selection(outside, Some(m))
    {
      InGroup();
    }

    // sym_set_tristate_value of a member
    method SetMember(m: Sym, val: Tri) returns (ok: bool)
      requires Ok() && Complete() && m in members
      modifies this
      ensures Ok() && outside == old(outside) && (Complete() || !valid)
      ensures ok <==> old(value)[m] == val || (old(visible)[m] == YES && val == YES)
      ensures !ok ==> unchanged(this)
      ensures ok ==> memberTri == old(memberTri)[m := val] && userTri == old(userTri)
      ensures ok ==> memberUser == old(memberUser) + {m} + if val == YES then VisibleMembers(old(visible)) else {}
      ensures ok && val != YES ==> userMember == old(userMember) && hasUser == old(hasUser)
      ensures ok ==> valid == (old(value)[m] == val)
      // a member that is set to y is what the user chose, and the choice will be y again
      ensures ok && val == YES ==>
        && userMember == Some(m) && hasUser && m in outside.conds && MemberVisible(outside, m, YES) == YES
        && ChoiceBase(outside, optional, true, userTri) == YES && (valid ==> curr == YES)
    {
      hide ChoiceBase, Choice.Shaped, Cached, Settled, MemberVisible, Choice.Selection, Choice.Ok, Choice.Chosen;
      InGroup();
      MemberCached(m);
      var oldval := value[m];
      if oldval != val && !MemberWithinRange(m, val) {
        return false;
      }
      Forms();
      if val == YES {
        MakeChosen(m);
      }
      StoreMember(m, val);
      if oldval != val {
        ClearValid();
      }
      return true;
    }

    lemma Forms()
      requires Ok()
      ensures Formed()
    {
    }

    // SYMBOL_DEF_USER and def[S_DEF_USER].tri of a member
    method StoreMember(m: Sym, val: Tri)
      requires Formed() && m in members
      modifies this`memberUser, this`memberTri
      ensures Formed() && (old(Ok()) ==> Ok())
      ensures memberUser == old(memberUser) + {m} && memberTri == old(memberTri)[m := val]
    {
      hide ChoiceBase, Cached, Settled, MemberVisible, Choice.Selection;
      assert m in set x | x in members;
      memberUser := memberUser + {m};
      memberTri := memberTri[m := val];
    }

    // sym_clear_all_valid
    method ClearValid()
      requires Formed()
      modifies this`valid, this`memberValid
      ensures Ok() && !valid
    {
      hide ChoiceBase, Choice.Shaped, Settled, MemberVisible, Choice.Selection;
      valid, memberValid := false, {};
    }

    // "Setting a choice value also resets the new flag of the choice symbol and all other choice
    // values": the part for a member that is or can be y.
    method MakeChosen(m: Sym)
      requires Ok() && Complete() && m in members && visible[m] == YES
      modifies this`userMember, this`hasUser, this`memberUser
      ensures userMember == Some(m) && hasUser && memberUser == old(memberUser) + VisibleMembers(visible)
      ensures Formed() && (value[m] == YES ==> Ok())
    {
      hide ChoiceBase, Cached, Settled, MemberVisible, Choice.Selection;
      InGroup();
      MemberCached(m);
      userMember, hasUser := Some(m), true;
      memberUser := memberUser + VisibleMembers(visible);
    }

    // sym_set_tristate_value of the choice itself
    method SetChoice(val: Tri) returns (ok: bool)
      requires Ok() && Complete()
      modifies this
      ensures Ok() && outside == old(outside) && (Complete() || !valid)
      ensures ok <==> old(curr) == val || (val != MOD && optional && outside.prompt != NO)
      ensures !ok ==> unchanged(this)
      ensures ok ==> hasUser && userTri == val && valid == (old(curr) == val)
      ensures userMember == old(userMember) && memberUser == old(memberUser) && memberTri == old(memberTri)
    {
      hide Cached, Settled, MemberVisible, Choice.Shaped, Choice.Selection, Choice.Ok, Choice.Chosen;
      BaseExactly(outside, optional, hasUser, userTri);
      Forms();
      var vis, rev := Bool(outside.prompt), ChoiceRev(outside, optional);
      if curr != val && (vis == NO || val == MOD || vis <= rev || val < rev || val > vis) {
        return false;
      }
      if curr != val {
        ClearValid();
      }
      StoreChoice(val);
      return true;
    }

    // The user asks for a choice that is calculated anew or has that value already.
    method StoreChoice(val: Tri)
      requires Ok() && (valid ==> curr == val)
      modifies this`hasUser, this`userTri
      ensures Ok() && hasUser && userTri == val
    {
      hide Cached, MemberVisible, Choice.Shaped, Choice.Selection;
      BaseExactly(outside, optional, true, userTri);
      BaseExactly(outside, optional, true, val);
      if valid {
        SettledFor(outside, ChoiceBase(outside, optional, true, userTri), ChoiceBase(outside, optional, true, val),
                   userMember, curr, selected);
      }
      hasUser, userTri := true, val;
    }

    // Setting a visible member to y makes it the selected one: after the next calculation it is
    // y and all other members are n.
    method Choose(m: Sym, order: seq<Sym>) returns (ok: bool)
      requires Ok() && Complete() && m in members
      requires (forall x <- order :: x in members) && (forall x <- members :: x in order)
      modifies this
      ensures Ok() && Complete() && outside == old(outside)
      ensures ok <==> old(value)[m] == YES || old(visible)[m] == YES
      ensures ok ==>
        curr == YES && selected == Some(m) && value[m] == YES && forall x <- members | x != m :: value[x] == NO
    {
      hide MemberVisible, ChoiceBase, Cached, Settled, Choice.Shaped, Choice.Complete;
      InGroup();
      ok := SetMember(m, YES);
      if ok {
        InGroup();
        CalcChoice();
        SelectedIsUser(m);
        CalcAll(order);
        AlwaysExclusive();
      }
    }

    lemma SelectedIsUser(m: Sym)
      requires Ok() && valid && curr == YES && userMember == Some(m) && m in outside.conds
      requires MemberVisible(outside, m, YES) == YES
      ensures selected == Some(m)
    {
    }
  }

  // ----- whole runs -----

  datatype Step = Set(m: Sym, val: Tri) | SetGroup(val: Tri) | Elsewhere(outside: Outside)

  // Any sequence of settings, accepted or not, of changes elsewhere and of calculations.
  method Run(c: Choice, steps: seq<Step>, order: seq<Sym>)
    requires c.Ok() && (forall m <- order :: m in c.members) && (forall m <- c.members :: m in order)
    requires forall s <- steps ::
      && (s.Set? ==> s.m in c.members)
      && (s.Elsewhere? ==> s.outside.conds.Keys == c.outside.conds.Keys
                           && |s.outside.defaultConds| == |c.outside.defaultConds|)
    modifies c
    ensures c.Ok() && c.Complete() && c.Exclusive()
  {
    c.CalcAll(order);
    var i := 0;
    while i < |steps|
      invariant 0 <= i <= |steps| && c.Ok() && c.Complete()
      invariant c.outside.conds.Keys == old(c.outside.conds.Keys)
      invariant |c.outside.defaultConds| == old(|c.outside.defaultConds|)
    {
      match steps[i] {
        case Set(m, val) =>
          var ok := c.SetMember(m, val);
        case SetGroup(val) =>
          var ok := c.SetChoice(val);
        case Elsewhere(o) =>
          c.Change(o);
      }
      c.CalcAll(order);
      i := i + 1;
    }
    c.AlwaysExclusive();
  }
}
