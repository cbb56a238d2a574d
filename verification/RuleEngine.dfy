/** The engine of rules.go: a list of rule objects, edited in place. Each method is one
    call under the engine's lock. */
module RuleEngine {
  import opened Prelude
  import opened Text
  import opened Rules

  class Engine {
    var rules: seq<Rule>
    var nextID: nat
    const rx: Regexps

    ghost function Contents(): seq<RuleData>
      reads this, rules
    {
      Views(rules)
    }

    /** Identifiers are distinct and were handed out before nextID. */
    ghost predicate Valid()
      reads this, rules
    {
      && DistinctIds(Contents())
      && IssuedBelow(Contents(), nextID)
      && (forall r :: r in Contents() ==> Sliceable(r))
    }

    constructor (rx: Regexps)
      ensures Valid() && Contents() == [] && nextID == 1 && this.rx == rx && rules == []
    {
      rules, nextID, this.rx := [], 1, rx;
    }

    /** Add: a rule that compiles goes to the end under a new identifier. */
    method Add(rtype: string, domain: string, target: string, enabled: bool) returns (added: Option<Rule>)
      requires Valid()
      modifies this
      ensures Valid()
      ensures var r := Compile(rx,
                RuleData(FormatId(old(nextID)), rtype, domain, target, Some(enabled), Exact, None, "", ""));
              && added.Some? == r.Some?
              && Contents() == (if r.Some? then old(Contents()) + [r.value] else old(Contents()))
              && nextID == old(nextID) + (if r.Some? then 1 else 0)
      ensures added.Some? ==> fresh(added.value) && rules == old(rules) + [added.value]
      ensures added.None? ==> rules == old(rules)
    {
      var r := new Rule(FormatId(nextID), rtype, domain, target, enabled);
      CompiledSliceable(rx, r.View());
      NewIdIsNew(Contents(), nextID);
      var ok := r.DoCompile(rx);
      if !ok {
        return None;
      }
      ghost var l := Contents();
      assert old(Contents()) == l;
      IssueOneMore(l, r.View(), nextID);
      rules := rules + [r];
      nextID := nextID + 1;
      assert Contents() == l + [r.View()];
      return Some(r);
    }

    /** The position of the first rule with this identifier. */
    method IndexOf(id: string) returns (i: nat)
      requires Valid()
      ensures i <= |rules|
      ensures i < |rules| ==> Contents()[i].id == id
      ensures i == |rules| ==> forall r :: r in Contents() ==> r.id != id
    {
      i := 0;
      while i < |rules|
        invariant i <= |rules| && forall j :: 0 <= j < i ==> Contents()[j].id != id
      {
        if rules[i].id == id {
          return i;
        }
        i := i + 1;
      }
    }

    /** Update: one rule is edited in place and compiled again; if that fails the edit
        stays and the old compiled form with it. */
    method Update(id: string, rtype: string, domain: string, target: string, enabled: Option<bool>)
      returns (ok: bool, ghost at: nat)
      requires Valid()
      modifies rules
      ensures Valid()
      ensures at <= |old(Contents())|
      ensures at == |old(Contents())| ==>
                !ok && Contents() == old(Contents()) && forall r :: r in Contents() ==> r.id != id
      ensures at < |old(Contents())| ==>
                var edited := Edited(old(Contents())[at], rtype, domain, target, enabled);
                && old(Contents())[at].id == id && ok == Compile(rx, edited).Some?
                && Contents() == old(Contents())[at := if ok then Compile(rx, edited).value else edited]
    {
      var i := IndexOf(id);
      at := i;
      if i == |rules| {
        return false, at;
      }
      hide Valid, Compile, Edited;
      ok := UpdateAt(i, rtype, domain, target, enabled);
    }

    method UpdateAt(i: nat, rtype: string, domain: string, target: string, enabled: Option<bool>) returns (ok: bool)
      requires Valid() && i < |rules|
      modifies rules
      ensures Valid()
      ensures var edited := Edited(old(Contents())[i], rtype, domain, target, enabled);
              && ok == Compile(rx, edited).Some?
              && Contents() == old(Contents())[i := if ok then Compile(rx, edited).value else edited]
    {
      ghost var l := Contents();
      assert l[i] in l;
      var r := rules[i];
      assert r.View() == l[i];
      ApartFrom(i);
      EditedId(l[i], rtype, domain, target, enabled);
      hide Compile, DistinctIds, IssuedBelow, Edited, Views, Sliceable;
      r.Edit(rtype, domain, target, enabled);
      CompiledSliceable(rx, r.View());
      ok := r.DoCompile(rx);
      assert Contents() == l[i := r.View()];
      EditKeepsIds(l, i, r.View(), nextID);
    }

    /** Distinct identifiers make distinct objects. */
    lemma ApartFrom(i: nat)
      requires Valid() && i < |rules|
      ensures forall j :: 0 <= j < |rules| && j != i ==> rules[j] != rules[i]
    {
      forall j | 0 <= j < |rules| && j != i
        ensures rules[j] != rules[i]
      {
        assert Contents()[j].id != Contents()[i].id;
      }
    }

    method Delete(id: string) returns (ok: bool, ghost at: nat)
      requires Valid()
      modifies this
      ensures Valid()
      ensures at <= |old(Contents())| && ok == (at < |old(Contents())|)
      ensures !ok ==> Contents() == old(Contents()) && forall r :: r in Contents() ==> r.id != id
      ensures ok ==> old(Contents())[at].id == id && Contents() == old(Contents())[..at] + old(Contents())[at + 1..]
      ensures nextID == old(nextID) && forall r :: r in rules ==> r in old(rules)
    {
      var i := IndexOf(id);
      at := i;
      if i == |rules| {
        return false, at;
      }
      ghost var l := Contents();
      CutKeepsIds(l, i, nextID);
      rules := rules[..i] + rules[i + 1..];
      assert Contents() == l[..i] + l[i + 1..];
      return true, at;
    }

    /** Match: the first enabled rule that matches, if any. */
    method Match(domain: string) returns (result: Option<Rule>)
      requires Valid()
      ensures result.Some? <==> FirstMatch(rx, Contents(), domain).Some?
      ensures result.Some? ==> result.value in rules && result.value.View() == FirstMatch(rx, Contents(), domain).value
    {
      for i := 0 to |rules|
        invariant forall j :: 0 <= j < i ==> !(IsEnabled(Contents()[j]) && RuleMatches(rx, Contents()[j], domain))
      {
        var r := rules[i];
        assert r.View() == Contents()[i] && Contents()[i] in Contents();
        if r.enabled != Some(true) {
          continue;
        }
        var hit := MatchOne(r, domain);
        if hit {
          FirstMatchIsFirst(rx, Contents(), domain, i);
          return Some(r);
        }
      }
      FirstMatchIsFirst(rx, Contents(), domain, |rules|);
      return None;
    }

    method MatchOne(r: Rule, name: string) returns (hit: bool)
      requires Sliceable(r.View())
      ensures hit == RuleMatches(rx, r.View(), name)
    {
      var domain, target := Lower(name), Lower(r.domain);
      match r.mode
      case Exact => hit := domain == target;
      case Suffix => hit := HasSuffix(domain, r.suffix) || domain == target[1..];
      case Wildcard => hit := HasSuffix(domain, r.suffix) || domain == target[2..];
      case Regex => hit := r.regex != None && rx.matches(r.regex.value, domain);
      case Keyword => hit := Contains(domain, r.keyword);
    }

    /** Reorder: the known listed rules in order of first mention, then the rest. */
    method Reorder(ids: seq<string>)
      requires Valid()
      modifies this
      ensures Valid()
      ensures Contents() == Reordered(old(Contents()), ids)
      ensures multiset(Contents()) == multiset(old(Contents()))
      ensures nextID == old(nextID) && forall r :: r in rules ==> r in old(rules)
    {
      hide Reordered, DistinctIds, IssuedBelow, Sliceable, Views;
      ReorderedValid(rx, Contents(), ids, nextID);
      var newRules := NewOrder(ids);
      rules := newRules;
      assert Contents() == Views(newRules);
    }

    method NewOrder(ids: seq<string>) returns (newRules: seq<Rule>)
      requires DistinctIds(Contents())
      ensures Views(newRules) == Reordered(Contents(), ids)
      ensures forall r :: r in newRules ==> r in rules
    {
      hide Reordered, Listed, Filter, FirstMentions, DistinctIds, IdSet, SetOf, Views;
      var listed, unlisted := TakeListed(ids);
      var rest := TakeRest(unlisted);
      BothParts(Contents(), ids, listed, rest);
      return listed + rest;
    }

    /** What the first loop has done when the identifiers `taken` have been moved. */
    ghost predicate Progress(listed: seq<Rule>, ruleMap: map<string, Rule>, taken: seq<string>)
      reads this, rules, listed, ruleMap.Values
    {
      && ruleMap.Keys == IdSet(Contents()) - SetOf(taken)
      && (forall id :: id in ruleMap ==> ruleMap[id] in rules && ruleMap[id].id == id)
      && (forall r :: r in listed ==> r in rules)
      && (forall id :: id in taken ==> id in IdSet(Contents()))
      && Views(listed) == Listed(Contents(), taken)
    }

    /** The first loop: listed rules leave the map in order of first mention. */
    method TakeListed(ids: seq<string>) returns (listed: seq<Rule>, ruleMap: map<string, Rule>)
      requires DistinctIds(Contents())
      ensures Progress(listed, ruleMap, FirstMentions(ids, IdSet(Contents())))
    {
      hide Views, DistinctIds, IdSet, Listed, FirstMentions, SetOf;
      ghost var known := IdSet(Contents());
      ruleMap := BuildMap();
      listed := [];
      MentionsStart(ids, known, Contents());
      NoViews();
      assert Progress(listed, ruleMap, []);
      hide Progress;
      for k := 0 to |ids|
        invariant Progress(listed, ruleMap, FirstMentions(ids[..k], known))
      {
        MentionStep(ids, k, known);
        ghost var taken := FirstMentions(ids[..k], known);
        listed, ruleMap := TakeOne(ids[k], listed, ruleMap, taken);
      }
      assert ids[..|ids|] == ids;
    }

    method TakeOne(id: string, listed: seq<Rule>, ruleMap: map<string, Rule>, ghost taken: seq<string>)
      returns (listed': seq<Rule>, ruleMap': map<string, Rule>)
      requires DistinctIds(Contents()) && Progress(listed, ruleMap, taken)
      ensures Progress(listed', ruleMap', if id in IdSet(Contents()) - SetOf(taken) then taken + [id] else taken)
    {
      if id !in ruleMap {
        return listed, ruleMap;
      }
      hide Lookup, Listed, DistinctIds, IdSet, Views, SetOf;
      var r := ruleMap[id];
      RulesInContents();
      assert r.View().id == id;
      ListedPush(Contents(), taken, r.View());
      PushView(listed, r);
      TakenOneMore(taken, id);
      return listed + [r], ruleMap - {id};
    }

    lemma RulesInContents()
      ensures forall r :: r in rules ==> r.View() in Contents()
    {
      forall r | r in rules
        ensures r.View() in Contents()
      {
        var i :| 0 <= i < |rules| && rules[i] == r;
        assert Contents()[i] == r.View();
      }
    }

    /** The second loop: the others follow in their old order. */
    method TakeRest(ruleMap: map<string, Rule>) returns (rest: seq<Rule>)
      requires DistinctIds(Contents())
      ensures forall r :: r in rest ==> r in rules
      ensures Views(rest) == Filter(Contents(), ruleMap.Keys)
    {
      hide Views, DistinctIds, IssuedBelow;
      ghost var l := Contents();
      rest := [];
      for i := 0 to |rules|
        invariant forall r :: r in rest ==> r in rules
        invariant Views(rest) == Filter(l[..i], ruleMap.Keys)
      {
        assert l[..i + 1][..i] == l[..i] && l[i] == rules[i].View();
        if rules[i].id in ruleMap {
          PushView(rest, rules[i]);
          rest := rest + [rules[i]];
        }
      }
      assert l[..|rules|] == l;
    }

    method BuildMap() returns (m: map<string, Rule>)
      ensures m.Keys == IdSet(Contents())
      ensures forall id :: id in m ==> m[id] in rules && m[id].id == id
    {
      m := map[];
      for i := 0 to |rules|
        invariant m.Keys == IdSet(Contents()[..i])
        invariant forall id :: id in m ==> m[id] in rules && m[id].id == id
      {
        assert Contents()[..i + 1] == Contents()[..i] + [Contents()[i]];
        m := m[rules[i].id := rules[i]];
      }
      assert Contents()[..|rules|] == Contents();
    }
  }

  lemma NoViews()
    ensures Views([]) == []
  {
  }

  lemma PushView(a: seq<Rule>, r: Rule)
    ensures Views(a + [r]) == Views(a) + [r.View()]
  {
  }

  lemma TakenOneMore(taken: seq<string>, id: string)
    ensures SetOf(taken + [id]) == SetOf(taken) + {id}
  {
  }

  lemma ViewsAppend(a: seq<Rule>, b: seq<Rule>)
    ensures Views(a + b) == Views(a) + Views(b)
  {
  }

  lemma BothParts(l: seq<RuleData>, ids: seq<string>, listed: seq<Rule>, rest: seq<Rule>)
    requires forall id :: id in FirstMentions(ids, IdSet(l)) ==> id in IdSet(l)
    requires Views(listed) == Listed(l, FirstMentions(ids, IdSet(l)))
    requires Views(rest) == Filter(l, IdSet(l) - SetOf(FirstMentions(ids, IdSet(l))))
    ensures Views(listed + rest) == Reordered(l, ids)
  {
    hide Listed, Filter, FirstMentions, IdSet, SetOf;
    ViewsAppend(listed, rest);
  }

  lemma ReorderedValid(rx: Regexps, l: seq<RuleData>, ids: seq<string>, next: nat)
    requires DistinctIds(l) && IssuedBelow(l, next) && forall r :: r in l ==> Sliceable(r)
    ensures DistinctIds(Reordered(l, ids)) && IssuedBelow(Reordered(l, ids), next)
    ensures forall r :: r in Reordered(l, ids) ==> Sliceable(r)
    ensures multiset(Reordered(l, ids)) == multiset(l)
  {
    ReorderedIsPermutation(l, ids);
    hide Reordered, DistinctIds, FormatId;
  }

  lemma MentionsStart(ids: seq<string>, known: set<string>, l: seq<RuleData>)
    ensures FirstMentions(ids[..0], known) == [] && known - SetOf([]) == known && Listed(l, []) == []
  {
  }

  lemma EditedId(r: RuleData, rtype: string, domain: string, target: string, enabled: Option<bool>)
    ensures Edited(r, rtype, domain, target, enabled).id == r.id
    ensures Edited(r, rtype, domain, target, enabled).mode == r.mode
  {
  }

  lemma NewIdIsNew(l: seq<RuleData>, next: nat)
    requires IssuedBelow(l, next)
    ensures forall r :: r in l ==> r.id != FormatId(next)
  {
    forall r | r in l
      ensures r.id != FormatId(next)
    {
      var n: nat :| n < next && r.id == FormatId(n);
      if r.id == FormatId(next) {
        FormatIdInjective(n, next);
      }
    }
  }

  lemma IssueOneMore(l: seq<RuleData>, r: RuleData, next: nat)
    requires DistinctIds(l) && IssuedBelow(l, next) && r.id == FormatId(next)
    ensures DistinctIds(l + [r]) && IssuedBelow(l + [r], next + 1)
  {
    NewIdIsNew(l, next);
    hide FormatId;
    forall q | q in l + [r]
      ensures exists n: nat :: n < next + 1 && q.id == FormatId(n)
    {
      if q in l {
        var n: nat :| n < next && q.id == FormatId(n);
        assert n < next + 1 && q.id == FormatId(n);
      } else {
        assert q.id == FormatId(next);
      }
    }
  }

  lemma EditKeepsIds(l: seq<RuleData>, i: nat, r: RuleData, next: nat)
    requires DistinctIds(l) && IssuedBelow(l, next) && i < |l| && r.id == l[i].id
    requires Sliceable(r) && forall q :: q in l ==> Sliceable(q)
    ensures DistinctIds(l[i := r]) && IssuedBelow(l[i := r], next)
    ensures forall q :: q in l[i := r] ==> Sliceable(q)
  {
    hide FormatId;
    assert l[i] in l;
    forall q | q in l[i := r]
      ensures exists n: nat :: n < next && q.id == FormatId(n)
    {
      if q !in l {
        var n: nat :| n < next && l[i].id == FormatId(n);
        assert n < next && q.id == FormatId(n);
      }
    }
  }

  lemma CutKeepsIds(l: seq<RuleData>, i: nat, next: nat)
    requires DistinctIds(l) && IssuedBelow(l, next) && i < |l|
    ensures DistinctIds(l[..i] + l[i + 1..]) && IssuedBelow(l[..i] + l[i + 1..], next)
    ensures forall q :: q in l[..i] + l[i + 1..] ==> q in l
  {
    hide FormatId;
    var c := l[..i] + l[i + 1..];
    assert forall j :: 0 <= j < |c| ==> c[j] == l[if j < i then j else j + 1];
  }

  lemma MentionStep(ids: seq<string>, k: nat, known: set<string>)
    requires k < |ids|
    ensures var before, after := FirstMentions(ids[..k], known), FirstMentions(ids[..k + 1], known);
            && after == (if ids[k] in known - SetOf(before) then before + [ids[k]] else before)
            && SetOf(after) == SetOf(before) + (if ids[k] in known - SetOf(before) then {ids[k]} else {})
            && (forall id :: id in after ==> id in known)
  {
    assert ids[..k + 1][..k] == ids[..k];
    MentionsKnown(ids[..k], known);
    MentionsKnown(ids[..k + 1], known);
  }

  lemma ListedPush(l: seq<RuleData>, ids: seq<string>, r: RuleData)
    requires DistinctIds(l) && r in l
    requires forall x :: x in ids ==> x in IdSet(l)
    ensures r.id in IdSet(l) && Listed(l, ids + [r.id]) == Listed(l, ids) + [r]
  {
    forall i | 0 <= i < |ids|
      ensures Found(l, ids + [r.id], i) == Found(l, ids, i)
    {
    }
    assert Found(l, ids + [r.id], |ids|) == Lookup(l, r.id);
    LookupUnique(l, r);
  }
}
