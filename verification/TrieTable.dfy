/** A trie as a flat table from key paths to nodes, its search, and what the search finds. */
module TrieTable {
  import opened Options
  import opened Paths

  /** Handlers are numbered; a chain is the middlewares followed by the handler. */
  type Handler = nat
  type Chain = seq<Handler>
  type Params = map<string, string>

  datatype Found = Found(chain: Chain, params: Params)

  datatype Info = Info(paramName: string, handlers: map<string, Chain>)

  /** The node reached from the root over the keys p is t[p]; ":" and "*" are the keys of
      parameter and wildcard children. */
  type Table = map<seq<string>, Info>

  const PARAM := ":"
  const WILD := "*"

  /** matchRecursive, below the node at p. */
  function Search(t: Table, segs: seq<string>, i: nat, verb: string, params: Params, p: seq<string>): Option<Found>
    requires i <= |segs| && p in t
    decreases |segs| - i
  {
    if i == |segs| then
      if verb in t[p].handlers then Some(Found(t[p].handlers[verb], params)) else None
    else
      var literal := if p + [segs[i]] in t then Search(t, segs, i + 1, verb, params, p + [segs[i]]) else None;
      if literal.Some? then literal
      else
        var q := p + [PARAM];
        var param := if q in t then Search(t, segs, i + 1, verb, params[t[q].paramName := segs[i]], q) else None;
        if param.Some? then param
        else
          var w := p + [WILD];
          if w in t && verb in t[w].handlers
          then Some(Found(t[w].handlers[verb], params[t[w].paramName := Join(segs[i..])]))
          else None
  }

  // ----- plans: how the segments of a request can be read -----

  /** One decision per segment, left to right; Wild takes all remaining segments. */
  datatype Plan = End | Literal(rest: Plan) | Param(rest: Plan) | Wild

  /** The plan leads from p to a node that handles the method. */
  predicate Leads(t: Table, segs: seq<string>, i: nat, verb: string, p: seq<string>, plan: Plan)
    requires i <= |segs|
    decreases plan
  {
    && p in t
    && match plan
       case End => i == |segs| && verb in t[p].handlers
       case Literal(rest) => i < |segs| && Leads(t, segs, i + 1, verb, p + [segs[i]], rest)
       case Param(rest) => i < |segs| && p + [PARAM] in t && Leads(t, segs, i + 1, verb, p + [PARAM], rest)
       case Wild => i < |segs| && p + [WILD] in t && verb in t[p + [WILD]].handlers
  }

  /** The chain at the plan's end and the parameters bound on the way, later ones winning. */
  function Reading(t: Table, segs: seq<string>, i: nat, verb: string, params: Params, p: seq<string>, plan: Plan): Found
    requires i <= |segs| && Leads(t, segs, i, verb, p, plan)
    decreases plan
  {
    match plan
    case End => Found(t[p].handlers[verb], params)
    case Literal(rest) => Reading(t, segs, i + 1, verb, params, p + [segs[i]], rest)
    case Param(rest) =>
      Reading(t, segs, i + 1, verb, params[t[p + [PARAM]].paramName := segs[i]], p + [PARAM], rest)
    case Wild =>
      var w := t[p + [WILD]];
      Found(w.handlers[verb], params[w.paramName := Join(segs[i..])])
  }

  /** Literal before parameter before wildcard, decided at the first difference. */
  predicate Precedes(a: Plan, b: Plan) {
    match a
    case End => true
    case Literal(x) => (b.Literal? && Precedes(x, b.rest)) || b.Param? || b.Wild?
    case Param(x) => (b.Param? && Precedes(x, b.rest)) || b.Wild?
    case Wild => b.Wild?
  }

  lemma {:induction false} PrecedesAntisym(a: Plan, b: Plan)
    requires Precedes(a, b) && Precedes(b, a)
    ensures a == b
  {
    if a.Literal? || a.Param? {
      PrecedesAntisym(a.rest, b.rest);
    }
  }

  /** The search reads a request by the first plan that leads anywhere, and fails exactly
      when no plan does.  There is no condition on the table or on the request. */
  lemma {:induction false} SearchTakesFirstPlan(t: Table, segs: seq<string>, i: nat, verb: string,
                                                params: Params, p: seq<string>)
    returns (plan: Plan)
    requires i <= |segs| && p in t
    ensures var r := Search(t, segs, i, verb, params, p);
            if r.Some? then
              && Leads(t, segs, i, verb, p, plan)
              && r.value == Reading(t, segs, i, verb, params, p, plan)
              && forall other :: Leads(t, segs, i, verb, p, other) ==> Precedes(plan, other)
            else forall other :: !Leads(t, segs, i, verb, p, other)
    decreases |segs| - i
  {
    plan := End;
    if i < |segs| {
      var lit, par, wild := p + [segs[i]], p + [PARAM], p + [WILD];
      var a, b := End, End;
      if lit in t {
        a := SearchTakesFirstPlan(t, segs, i + 1, verb, params, lit);
      }
      if par in t {
        b := SearchTakesFirstPlan(t, segs, i + 1, verb, params[t[par].paramName := segs[i]], par);
      }
      if lit in t && Search(t, segs, i + 1, verb, params, lit).Some? {
        plan := Literal(a);
      } else if par in t && Search(t, segs, i + 1, verb, params[t[par].paramName := segs[i]], par).Some? {
        plan := Param(b);
      } else {
        plan := Wild;
      }
    }
  }
}
