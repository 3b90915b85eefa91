/**
  The name policy of the certificate authority (the first half of do_body in openssl/apps/ca.c).

  A policy is a list of rules, one for each kind of name field. An accepted request gets a
  subject built from the request's own fields, in the order of the policy.
 */
module CaPolicy {
  import opened Common

  /** A string value; two are equal when they have the same encoding and the same bytes. */
  datatype Text = Text(kind: int, data: seq<int>)

  datatype Field = Field(obj: int, value: Text)

  type Name = seq<Field>

  /** A line of the policy; `obj` is absent when the text names no known kind of field. */
  datatype Rule = Rule(obj: Option<int>, action: string)

  datatype Fault = UnknownType | InvalidAction | Missing | NotInCa | Differs

  datatype Verdict = Accepted(subject: Name) | Rejected(rule: nat, fault: Fault)

  // ----- What the policy says -----

  /** The fields of one kind, in order. */
  function Of(name: Name, obj: int): (r: Name)
    ensures forall f :: f in r <==> f in name && f.obj == obj
  {
    if name == [] then [] else
      var n := |name| - 1;
      assert name == name[..n] + [name[n]];
      Of(name[..n], obj) + if name[n].obj == obj then [name[n]] else []
  }

  /** What is wrong with a request under one rule. */
  function FaultOf(rule: Rule, request: Name, ca: Name): Option<Fault> {
    if rule.obj.None? then Some(UnknownType) else
      var have := Of(request, rule.obj.value);
      var own := Of(ca, rule.obj.value);
      match rule.action
      case "optional" => None
      case "supplied" => if have == [] then Some(Missing) else None
      case "match" =>
        if have == [] then Some(Missing)
        else if own == [] then Some(NotInCa)
        else if exists f :: f in have && f !in own then Some(Differs)
        else None
      case _ => Some(InvalidAction)
  }

  ghost predicate Satisfies(policy: seq<Rule>, request: Name, ca: Name) {
    forall i :: 0 <= i < |policy| ==> FaultOf(policy[i], request, ca) == None
  }

  /** Some field is of a kind. */
  ghost predicate HasField(name: Name, obj: int) {
    exists f :: f in name && f.obj == obj
  }

  /** Each fault has its own condition on the fields of the request and of the authority. */
  lemma FaultIs(rule: Rule, request: Name, ca: Name)
    ensures var fault := FaultOf(rule, request, ca);
            && (fault == Some(UnknownType) <==> rule.obj == None)
            && (fault == Some(InvalidAction) <==> rule.obj.Some? && rule.action !in ["optional", "supplied", "match"])
            && (fault == Some(Missing) <==>
                  rule.obj.Some? && rule.action in ["supplied", "match"] && !HasField(request, rule.obj.value))
            && (fault == Some(NotInCa) <==>
                  rule.obj.Some? && rule.action == "match" && HasField(request, rule.obj.value)
                  && !HasField(ca, rule.obj.value))
            && (fault == Some(Differs) <==>
                  rule.obj.Some? && rule.action == "match" && HasField(ca, rule.obj.value)
                  && exists f :: f in request && f.obj == rule.obj.value && f !in ca)
  {
    if rule.obj.Some? {
      OfHas(request, rule.obj.value);
      OfHas(ca, rule.obj.value);
    }
  }

  lemma OfHas(name: Name, obj: int)
    ensures HasField(name, obj) <==> Of(name, obj) != []
  {
    if Of(name, obj) != [] {
      assert Of(name, obj)[0] in Of(name, obj);
    }
  }

  /**
    A request is accepted exactly when every rule is for a known kind of field and either optional,
    or asks for a field the request has, which for a match are all the authority's own.
   */
  lemma AcceptedIff(policy: seq<Rule>, request: Name, ca: Name)
    ensures Satisfies(policy, request, ca) <==>
              forall i :: 0 <= i < |policy| ==>
                && policy[i].obj.Some?
                && (policy[i].action == "optional"
                    || (policy[i].action in ["supplied", "match"] && HasField(request, policy[i].obj.value)))
                && (policy[i].action == "match" ==> forall f | f in request && f.obj == policy[i].obj.value :: f in ca)
  {
    forall i | 0 <= i < |policy|
      ensures FaultOf(policy[i], request, ca) == None <==>
                && policy[i].obj.Some?
                && (policy[i].action == "optional"
                    || (policy[i].action in ["supplied", "match"] && HasField(request, policy[i].obj.value)))
                && (policy[i].action == "match" ==> forall f | f in request && f.obj == policy[i].obj.value :: f in ca)
    {
      NoFault(policy[i], request, ca);
    }
  }

  lemma NoFault(rule: Rule, request: Name, ca: Name)
    ensures FaultOf(rule, request, ca) == None <==>
              && rule.obj.Some?
              && (rule.action == "optional"
                  || (rule.action in ["supplied", "match"] && HasField(request, rule.obj.value)))
              && (rule.action == "match" ==> forall f | f in request && f.obj == rule.obj.value :: f in ca)
  {
    FaultIs(rule, request, ca);
  }

  /** The fields one rule takes from a request. */
  function Picked(rule: Rule, request: Name): Name {
    if rule.obj.Some? then Of(request, rule.obj.value) else []
  }

  /** The subject an accepted request gets. */
  function Selected(policy: seq<Rule>, request: Name): Name {
    if policy == [] then [] else
      var n := |policy| - 1;
      Selected(policy[..n], request) + Picked(policy[n], request)
  }

  // ----- The loops -----

  /** The first field of a kind after position `last`, or -1. */
  function NextIndex(name: Name, obj: int, last: int): (j: int)
    requires -1 <= last
    ensures j == -1 || last < j < |name|
    ensures j != -1 ==> name[j].obj == obj
    ensures forall k :: last < k < (if j == -1 then |name| else j) ==> name[k].obj != obj
    decreases |name| - last
  {
    if last + 1 >= |name| then -1
    else if name[last + 1].obj == obj then last + 1
    else NextIndex(name, obj, last + 1)
  }

  /** Positions between two indices that hold no field of a kind add none. */
  lemma {:induction false} OfSkips(name: Name, obj: int, a: nat, b: nat)
    requires a <= b <= |name|
    requires forall k :: a <= k < b ==> name[k].obj != obj
    ensures Of(name[..b], obj) == Of(name[..a], obj)
    decreases b
  {
    if a < b {
      assert name[..b][..b - 1] == name[..b - 1];
      OfSkips(name, obj, a, b - 1);
    }
  }

  lemma OfTakes(name: Name, obj: int, j: nat)
    requires j < |name| && name[j].obj == obj
    ensures Of(name[..j + 1], obj) == Of(name[..j], obj) + [name[j]]
  {
    assert name[..j + 1][..j] == name[..j];
  }

  /** What the next field found adds. */
  lemma OfNext(name: Name, obj: int, last: int, j: int)
    requires -1 <= last < |name| && j == NextIndex(name, obj, last)
    ensures j == -1 ==> Of(name, obj) == Of(name[..last + 1], obj)
    ensures j != -1 ==> Of(name[..j + 1], obj) == Of(name[..last + 1], obj) + [name[j]] && name[j] in Of(name, obj)
  {
    if j == -1 {
      OfSkips(name, obj, last + 1, |name|);
      assert name[..|name|] == name;
    } else {
      OfSkips(name, obj, last + 1, j);
      OfTakes(name, obj, j);
    }
  }

  /** The search behind again2: an own field with the value of `f`. */
  method FindEqual(ca: Name, f: Field) returns (push: Option<Field>, any: bool)
    ensures any <==> Of(ca, f.obj) != []
    ensures push == if f in Of(ca, f.obj) then Some(f) else None
  {
    var last2 := -1;
    while true
      invariant -1 <= last2 < |ca|
      invariant last2 >= 0 ==> ca[last2].obj == f.obj
      invariant forall k :: 0 <= k <= last2 ==> ca[k] != f
      decreases |ca| - last2
    {
      var j := NextIndex(ca, f.obj, last2);
      if j < 0 {
        assert forall g | g in Of(ca, f.obj) :: g != f;
        if last2 != -1 {
          assert ca[last2] in Of(ca, f.obj);
        } else {
          OfSkips(ca, f.obj, 0, |ca|);
          assert ca[..|ca|] == ca;
        }
        return None, last2 != -1;
      }
      last2 := j;
      if ca[j].value == f.value {
        return Some(ca[j]), true;
      }
    }
  }

  /** One turn of the inner loop for a field of the request, or for none when there is none. */
  method Push(action: string, tne: Option<Field>, ca: Name) returns (push: Option<Field>, fault: Option<Fault>)
    ensures fault == None ==> push == tne
    ensures fault ==
            match action {
              case "optional" => None
              case "supplied" => if tne == None then Some(Missing) else None
              case "match" =>
                if tne == None then Some(Missing)
                else if Of(ca, tne.value.obj) == [] then Some(NotInCa)
                else if tne.value !in Of(ca, tne.value.obj) then Some(Differs)
                else None
              case _ => Some(InvalidAction)
            }
  {
    push, fault := None, None;
    if action == "optional" {
      push := tne;
    } else if action == "supplied" {
      if tne == None {
        fault := Some(Missing);
      } else {
        push := tne;
      }
    } else if action == "match" {
      if tne == None {
        return None, Some(Missing);
      }
      var any;
      push, any := FindEqual(ca, tne.value);
      if push == None {
        fault := Some(if any then Differs else NotInCa);
      }
    } else {
      fault := Some(InvalidAction);
    }
  }

  /** All turns of the inner loop for one rule. */
  method ApplyRule(rule: Rule, request: Name, ca: Name) returns (pushed: Name, fault: Option<Fault>)
    requires rule.obj.Some?
    ensures fault == FaultOf(rule, request, ca)
    ensures fault == None ==> pushed == Of(request, rule.obj.value)
  {
    var obj := rule.obj.value;
    var last := -1;
    pushed := [];
    while true
      invariant -1 <= last < |request|
      invariant pushed == Of(request[..last + 1], obj)
      invariant last >= 0 ==> request[last] in pushed
      invariant rule.action in ["optional", "supplied", "match"] || last == -1
      invariant rule.action == "match" ==> forall f | f in pushed :: f in Of(ca, obj)
      decreases |request| - last
    {
      var j := NextIndex(request, obj, last);
      OfNext(request, obj, last, j);
      if j < 0 && last != -1 {
        fault := None;
        return;
      }
      var tne := if j < 0 then None else Some(request[j]);
      var push;
      push, fault := Push(rule.action, tne, ca);
      if fault.Some? {
        return;
      }
      if push.Some? {
        pushed := pushed + [push.value];
      }
      if j < 0 {
        return;
      }
      last := j;
    }
  }

  method Select(policy: seq<Rule>, request: Name, ca: Name) returns (v: Verdict)
    ensures v.Accepted? <==> Satisfies(policy, request, ca)
    ensures v.Accepted? ==> v.subject == Selected(policy, request)
    ensures v.Rejected? ==> v.rule < |policy| && Satisfies(policy[..v.rule], request, ca)
                            && FaultOf(policy[v.rule], request, ca) == Some(v.fault)
  {
    var subject := [];
    for i := 0 to |policy|
      invariant subject == Selected(policy[..i], request)
      invariant Satisfies(policy[..i], request, ca)
    {
      var pushed, fault := TakeRule(policy[i], request, ca);
      if fault.Some? {
        return Rejected(i, fault.value);
      }
      RuleTaken(policy, request, ca, i);
      subject := subject + pushed;
    }
    assert policy[..|policy|] == policy;
    v := Accepted(subject);
  }

  method TakeRule(rule: Rule, request: Name, ca: Name) returns (pushed: Name, fault: Option<Fault>)
    ensures fault == FaultOf(rule, request, ca)
    ensures fault == None ==> pushed == Picked(rule, request)
  {
    if rule.obj == None {
      return [], Some(UnknownType);
    }
    pushed, fault := ApplyRule(rule, request, ca);
  }

  lemma RuleTaken(policy: seq<Rule>, request: Name, ca: Name, i: nat)
    requires i < |policy| && Satisfies(policy[..i], request, ca) && FaultOf(policy[i], request, ca) == None
    ensures Satisfies(policy[..i + 1], request, ca)
    ensures Selected(policy[..i + 1], request) == Selected(policy[..i], request) + Picked(policy[i], request)
  {
    assert policy[..i + 1][..i] == policy[..i];
    var now := policy[..i + 1];
    forall k | 0 <= k < |now| ensures FaultOf(now[k], request, ca) == None {
      assert k < i ==> now[k] == policy[..i][k];
    }
  }

  // ----- What the subject holds -----

  /** How many rules name a kind of field. */
  function Rules(policy: seq<Rule>, obj: int): nat {
    if policy == [] then 0 else
      var n := |policy| - 1;
      Rules(policy[..n], obj) + if policy[n].obj == Some(obj) then 1 else 0
  }

  lemma {:induction false} OfCount(name: Name, obj: int, f: Field)
    ensures multiset(Of(name, obj))[f] == if f.obj == obj then multiset(name)[f] else 0
  {
    if name != [] {
      var n := |name| - 1;
      assert name == name[..n] + [name[n]];
      OfCount(name[..n], obj, f);
    }
  }

  /** The fields of one kind keep their order. */
  lemma {:induction false} OfConcat(a: Name, b: Name, obj: int)
    ensures Of(a + b, obj) == Of(a, obj) + Of(b, obj)
  {
    if b == [] {
      assert a + b == a;
    } else {
      var n := |b| - 1;
      assert (a + b)[..|a + b| - 1] == a + b[..n];
      OfConcat(a, b[..n], obj);
    }
  }

  /** The subject's fields come in the order of the rules. */
  lemma {:induction false} SelectedConcat(p: seq<Rule>, q: seq<Rule>, request: Name)
    ensures Selected(p + q, request) == Selected(p, request) + Selected(q, request)
  {
    if q == [] {
      assert p + q == p;
    } else {
      var n := |q| - 1;
      assert (p + q)[..|p + q| - 1] == p + q[..n];
      SelectedConcat(p, q[..n], request);
      Grouped(Selected(p, request), Selected(q[..n], request), Picked(q[n], request));
    }
  }

  lemma Grouped(a: Name, b: Name, c: Name)
    ensures a + b + c == a + (b + c)
  {
  }

  /** Fields no rule names are dropped; the others appear once for each rule that names their kind. */
  lemma {:induction false} SelectedCount(policy: seq<Rule>, request: Name, f: Field)
    ensures multiset(Selected(policy, request))[f] == multiset(request)[f] * Rules(policy, f.obj)
  {
    if policy != [] {
      var n := |policy| - 1;
      SelectedCount(policy[..n], request, f);
      LastCount(policy[n], request, f);
      CountConcat(Selected(policy[..n], request), Picked(policy[n], request), f);
      Distribute(multiset(request)[f], Rules(policy[..n], f.obj), if policy[n].obj == Some(f.obj) then 1 else 0);
    }
  }

  lemma Distribute(m: nat, a: nat, b: nat)
    ensures m * (a + b) == m * a + m * b
  {
  }

  lemma CountConcat(a: Name, b: Name, f: Field)
    ensures multiset(a + b)[f] == multiset(a)[f] + multiset(b)[f]
  {
  }

  lemma LastCount(rule: Rule, request: Name, f: Field)
    ensures multiset(Picked(rule, request))[f] == multiset(request)[f] * if rule.obj == Some(f.obj) then 1 else 0
  {
    if rule.obj.Some? {
      OfCount(request, rule.obj.value, f);
    }
  }

  lemma {:induction false} SelectedFrom(policy: seq<Rule>, request: Name, f: Field)
    ensures f in Selected(policy, request)
       <==> f in request && exists i :: 0 <= i < |policy| && policy[i].obj == Some(f.obj)
  {
    if policy != [] {
      var n := |policy| - 1;
      SelectedFrom(policy[..n], request, f);
      assert policy == policy[..n] + [policy[n]];
    }
  }

  /**
    What the certificate of an accepted request promises: each field that must be supplied or must
    match is there, and no field that must match differs from every field of the authority.
   */
  lemma SubjectKeepsPolicy(policy: seq<Rule>, request: Name, ca: Name, i: nat)
    requires Satisfies(policy, request, ca) && i < |policy|
    ensures policy[i].obj.Some?
    ensures policy[i].action != "optional" ==>
              exists f :: f in Selected(policy, request) && f.obj == policy[i].obj.value
    ensures policy[i].action == "match" ==>
              forall f | f in Selected(policy, request) && f.obj == policy[i].obj.value :: f in ca
  {
    assert FaultOf(policy[i], request, ca) == None;
    var o := policy[i].obj.value;
    if policy[i].action != "optional" {
      var f := Of(request, o)[0];
      assert f in Of(request, o);
      SelectedFrom(policy, request, f);
    }
    if policy[i].action == "match" {
      forall f | f in Selected(policy, request) && f.obj == o ensures f in ca {
        SelectedFrom(policy, request, f);
        MatchingIsOwn(policy[i], request, ca, f);
      }
    }
  }

  lemma MatchingIsOwn(rule: Rule, request: Name, ca: Name, f: Field)
    requires rule.obj == Some(f.obj) && rule.action == "match" && FaultOf(rule, request, ca) == None && f in request
    ensures f in ca
  {
    assert f in Of(request, f.obj) && f in Of(ca, f.obj);
  }
}
