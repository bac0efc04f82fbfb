/** Verification of sub-rules: a depth-first walk from every name that rejects missing targets
    and circular references. */
module SubRules {
  import opened Digraphs
  import opened Wrappers

  /** A rule; only the ones that hand over to other sub-rules refer to a name. */
  datatype Rule = SubRule(target: string) | Other

  type RuleMap = map<string, seq<Rule>>

  datatype Error = NotFound(from: string, target: string) | Circular(path: seq<string>)

  predicate IsInArray(v: string, arr: seq<string>) {
    v in arr
  }

  function PathSet(arr: seq<string>): set<string> {
    set n | n in arr
  }

  /** Walks the rules of `n` from the `i`-th on; `arr` ends with `n`. */
  function VerifyRules(n: string, rules: RuleMap, arr: seq<string>, i: nat): (r: Option<Error>)
    requires n in rules && i <= |rules[n]|
    decreases rules.Keys - PathSet(arr), 1, |rules[n]| - i
  {
    if i == |rules[n]| then None
    else
      match rules[n][i]
      case Other => VerifyRules(n, rules, arr, i + 1)
      case SubRule(target) =>
        if target !in rules then Some(NotFound(n, target))
        else if IsInArray(target, arr) then Some(Circular(arr + [target]))
        else
          var below := VerifyCircularReferences(target, rules, arr);
          if below.Some? then below else VerifyRules(n, rules, arr, i + 1)
  }

  /** The walk from `n` with the names on the way in `arr`. The names not yet on the way bound
      its depth. */
  function VerifyCircularReferences(n: string, rules: RuleMap, arr: seq<string>): (r: Option<Error>)
    requires n in rules && n !in arr
    decreases rules.Keys - PathSet(arr), 0
  {
    assert n in rules.Keys - PathSet(arr) && n in PathSet(arr + [n]);
    assert PathSet(arr) <= PathSet(arr + [n]);
    VerifyRules(n, rules, arr + [n], 0)
  }

  /** Starts from every name, in any order. */
  method VerifySubRule(rules: RuleMap) returns (err: Option<Error>)
    ensures err.None? <==> AllTargetsExist(rules) && !HasCycle(References(rules))
  {
    var todo := rules.Keys;
    while todo != {}
      invariant todo <= rules.Keys
      invariant forall n :: n in rules.Keys - todo ==> VerifyCircularReferences(n, rules, []).None?
      decreases todo
    {
      var name :| name in todo;
      err := VerifyCircularReferences(name, rules, []);
      if err.Some? {
        RejectedRightly(name, rules);
        return;
      }
      todo := todo - {name};
    }
    AcceptedRightly(rules);
    return None;
  }

  // ---- what is accepted ----

  ghost predicate Refers(rules: RuleMap, a: string, b: string) {
    a in rules && SubRule(b) in rules[a]
  }

  ghost predicate AllTargetsExist(rules: RuleMap) {
    forall a, b :: Refers(rules, a, b) ==> b in rules
  }

  ghost function References(rules: RuleMap): Edges {
    iset e: (string, string) | Refers(rules, e.0, e.1)
  }

  lemma ReferencesRefer(rules: RuleMap, a: string, b: string)
    ensures Leads(References(rules), a, b) <==> Refers(rules, a, b)
  {
  }

  /** The way to `n` is a path of references. */
  lemma {:induction false} RejectedBelow(n: string, rules: RuleMap, arr: seq<string>, i: nat)
    requires n in rules && i <= |rules[n]|
    requires |arr| > 0 && arr[|arr| - 1] == n && Path(References(rules), arr)
    requires VerifyRules(n, rules, arr, i).Some?
    ensures !AllTargetsExist(rules) || HasCycle(References(rules))
    decreases rules.Keys - PathSet(arr), 1, |rules[n]| - i
  {
    if rules[n][i].Other? {
      RejectedBelow(n, rules, arr, i + 1);
    } else {
      var target := rules[n][i].target;
      assert Refers(rules, n, target);
      if target in rules {
        ReferencesRefer(rules, n, target);
        ExtendPath(References(rules), arr, target);
        if target in arr {
          var k :| 0 <= k < |arr| && arr[k] == target;
          CloseCycle(References(rules), arr + [target], k, |arr|);
        } else if VerifyCircularReferences(target, rules, arr).Some? {
          assert target in rules.Keys - PathSet(arr) && target in PathSet(arr + [target]);
          assert PathSet(arr) <= PathSet(arr + [target]);
          RejectedBelow(target, rules, arr + [target], 0);
        } else {
          RejectedBelow(n, rules, arr, i + 1);
        }
      }
    }
  }

  lemma RejectedRightly(name: string, rules: RuleMap)
    requires name in rules && VerifyCircularReferences(name, rules, []).Some?
    ensures !AllTargetsExist(rules) || HasCycle(References(rules))
  {
    assert [] + [name] == [name];
    RejectedBelow(name, rules, [name], 0);
  }

  /** Where the walk found nothing, it looked behind every reference. */
  lemma {:induction false} NothingBelow(n: string, rules: RuleMap, arr: seq<string>, i: nat, target: string)
    requires n in rules && i <= |rules[n]| && SubRule(target) in rules[n][i..]
    requires VerifyRules(n, rules, arr, i).None?
    ensures target in rules && target !in arr && VerifyCircularReferences(target, rules, arr).None?
    decreases |rules[n]| - i
  {
    assert rules[n][i..] == [rules[n][i]] + rules[n][i + 1..];
    if rules[n][i] != SubRule(target) {
      NothingBelow(n, rules, arr, i + 1, target);
    }
  }

  /** Following a path of references from an accepted name never comes back to the way. */
  lemma {:induction false} NoReturn(rules: RuleMap, p: seq<string>, i: nat)
    requires |p| > 0 && Path(References(rules), p) && p[0] in rules
    requires VerifyCircularReferences(p[0], rules, []).None?
    requires i < |p|
    ensures p[i] in rules && p[i] !in p[..i] && VerifyCircularReferences(p[i], rules, p[..i]).None?
  {
    if i == 0 {
      assert p[..0] == [];
    } else {
      NoReturn(rules, p, i - 1);
      assert p[..i] == p[..i - 1] + [p[i - 1]];
      ReferencesRefer(rules, p[i - 1], p[i]);
      assert Leads(References(rules), p[i - 1], p[i]);
      assert rules[p[i - 1]][0..] == rules[p[i - 1]];
      NothingBelow(p[i - 1], rules, p[..i], 0, p[i]);
    }
  }

  lemma AcceptedRightly(rules: RuleMap)
    requires forall n :: n in rules ==> VerifyCircularReferences(n, rules, []).None?
    ensures AllTargetsExist(rules) && !HasCycle(References(rules))
  {
    forall a, b | Refers(rules, a, b) ensures b in rules {
      assert [] + [a] == [a] && rules[a][0..] == rules[a];
      NothingBelow(a, rules, [a], 0, b);
    }
    forall p | |p| >= 2 && Path(References(rules), p) ensures p[0] != p[|p| - 1] {
      ReferencesRefer(rules, p[0], p[1]);
      assert Leads(References(rules), p[0], p[1]);
      NoReturn(rules, p, |p| - 1);
      assert p[..|p| - 1][0] == p[0];
    }
  }

  /** The reported way really leads from name to name, back to one of its own. */
  lemma {:induction false} ReportBelow(n: string, rules: RuleMap, arr: seq<string>, i: nat)
    requires n in rules && i <= |rules[n]|
    requires |arr| > 0 && arr[|arr| - 1] == n && Path(References(rules), arr)
    requires VerifyRules(n, rules, arr, i).Some?
    ensures match VerifyRules(n, rules, arr, i).value
            case NotFound(from, target) => Refers(rules, from, target) && target !in rules
            case Circular(path) =>
              Path(References(rules), path) && |path| >= 2 && path[|path| - 1] in path[..|path| - 1]
    decreases rules.Keys - PathSet(arr), 1, |rules[n]| - i
  {
    if rules[n][i].Other? {
      ReportBelow(n, rules, arr, i + 1);
    } else {
      var target := rules[n][i].target;
      assert Refers(rules, n, target);
      if target in rules {
        ReferencesRefer(rules, n, target);
        ExtendPath(References(rules), arr, target);
        if target in arr {
          assert (arr + [target])[..|arr|] == arr;
        } else if VerifyCircularReferences(target, rules, arr).Some? {
          assert target in rules.Keys - PathSet(arr) && target in PathSet(arr + [target]);
          assert PathSet(arr) <= PathSet(arr + [target]);
          ReportBelow(target, rules, arr + [target], 0);
        } else {
          ReportBelow(n, rules, arr, i + 1);
        }
      }
    }
  }
}
