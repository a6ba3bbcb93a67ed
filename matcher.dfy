/**
 * The shape matcher that stands in for erl_match and erl_var_content: a
 * pattern is a term template with named holes; matching a term either fails
 * or binds every hole to the sub-term in its place. A hole that occurs twice
 * must be bound to equal sub-terms both times.
 */
module Matcher {
  import opened ErlTerm

  datatype Pattern =
    | Var(name: string)      // a hole such as `Mode`
    | Lit(term: Term)        // a constant such as the atom `ok`
    | TupleOf(elems: seq<Pattern>)

  type Bindings = map<string, Term>

  /** The names of the holes of a pattern. */
  function Holes(p: Pattern): set<string>
    decreases p, 1
  {
    match p
    case Var(x) => {x}
    case Lit(_) => {}
    case TupleOf(ps) => HolesAll(ps)
  }

  function HolesAll(ps: seq<Pattern>): set<string>
    decreases ps, 0
  {
    if ps == [] then {} else Holes(ps[0]) + HolesAll(ps[1..])
  }

  /**
   * Matches `t` against `p`, extending the bindings `b` already made. A
   * successful match keeps every binding of `b`.
   */
  function Match(p: Pattern, t: Term, b: Bindings): (r: Option<Bindings>)
    ensures r.Some? ==> Extends(r.value, b)
    decreases p, 1
  {
    match p
    case Var(x) =>
      if x !in b then Some(b[x := t])
      else if b[x] == t then Some(b)
      else None
    case Lit(u) =>
      if u == t then Some(b) else None
    case TupleOf(ps) =>
      if t.Tuple? && |t.elems| == |ps| then MatchAll(ps, t.elems, b) else None
  }

  /** Matches the terms `ts` against the patterns `ps`, left to right. */
  function MatchAll(ps: seq<Pattern>, ts: seq<Term>, b: Bindings): (r: Option<Bindings>)
    requires |ps| == |ts|
    ensures r.Some? ==> Extends(r.value, b)
    decreases ps, 0
  {
    if ps == [] then Some(b)
    else
      match Match(ps[0], ts[0], b)
      case None => None
      case Some(b1) => MatchAll(ps[1..], ts[1..], b1)
  }

  /** erl_match on a freshly built pattern: no hole is bound beforehand. */
  function MatchFresh(p: Pattern, t: Term): Option<Bindings> {
    Match(p, t, map[])
  }

  /**
   * After a successful erl_match on a fresh pattern, erl_var_content finds a
   * sub-term for every hole of the pattern and for no other name.
   */
  lemma MatchBindsHoles(p: Pattern, t: Term, x: string)
    requires MatchFresh(p, t).Some?
    ensures VarContent(MatchFresh(p, t).value, x).Some? <==> x in Holes(p)
  {
    MatchKeys(p, t, map[]);
  }

  /** A successful match binds exactly the holes of the pattern, on top of the bindings already made. */
  lemma {:induction false} MatchKeys(p: Pattern, t: Term, b: Bindings)
    requires Match(p, t, b).Some?
    ensures Match(p, t, b).value.Keys == b.Keys + Holes(p)
    decreases p, 1
  {
    match p
    case Var(x) =>
    case Lit(u) =>
    case TupleOf(ps) =>
      MatchAllKeys(ps, t.elems, b);
  }

  lemma {:induction false} MatchAllKeys(ps: seq<Pattern>, ts: seq<Term>, b: Bindings)
    requires |ps| == |ts|
    requires MatchAll(ps, ts, b).Some?
    ensures MatchAll(ps, ts, b).value.Keys == b.Keys + HolesAll(ps)
    decreases ps, 0
  {
    if ps != [] {
      MatchKeys(ps[0], ts[0], b);
      MatchAllKeys(ps[1..], ts[1..], Match(ps[0], ts[0], b).value);
    }
  }

  /** erl_var_content: the sub-term bound to a hole, None when it is not bound. */
  function VarContent(b: Bindings, x: string): (r: Option<Term>)
    ensures r.Some? <==> x in b
    ensures r.Some? ==> r.value == b[x]
  {
    if x in b then Some(b[x]) else None
  }

  /** The term a pattern stands for once its holes are filled from `b`; None if a hole is unbound. */
  function Subst(p: Pattern, b: Bindings): Option<Term>
    decreases p, 1
  {
    match p
    case Var(x) => if x in b then Some(b[x]) else None
    case Lit(u) => Some(u)
    case TupleOf(ps) =>
      match SubstAll(ps, b)
      case None => None
      case Some(ts) => Some(Tuple(ts))
  }

  function SubstAll(ps: seq<Pattern>, b: Bindings): Option<seq<Term>>
    decreases ps, 0
  {
    if ps == [] then Some([])
    else
      match (Subst(ps[0], b), SubstAll(ps[1..], b))
      case (Some(t), Some(ts)) => Some([t] + ts)
      case _ => None
  }

  /** Filling a sequence of patterns fills each one in place. */
  lemma {:induction false} SubstAllEach(ps: seq<Pattern>, b: Bindings, ts: seq<Term>)
    requires |ps| == |ts|
    requires forall i :: 0 <= i < |ps| ==> Subst(ps[i], b) == Some(ts[i])
    ensures SubstAll(ps, b) == Some(ts)
    decreases ps
  {
    if ps != [] {
      SubstAllEach(ps[1..], b, ts[1..]);
      assert [ts[0]] + ts[1..] == ts;
    }
  }

  /** A filled sequence of patterns holds each filled pattern in place. */
  lemma {:induction false} SubstAllAt(ps: seq<Pattern>, b: Bindings, ts: seq<Term>)
    requires SubstAll(ps, b) == Some(ts)
    ensures |ps| == |ts|
    ensures forall i :: 0 <= i < |ps| ==> Subst(ps[i], b) == Some(ts[i])
    decreases ps
  {
    if ps != [] {
      SubstAllAt(ps[1..], b, ts[1..]);
      assert forall i :: 1 <= i < |ps| ==> ps[i] == ps[1..][i - 1];
    }
  }

  /** `b1` keeps every binding of `b`. */
  predicate Extends(b1: Bindings, b: Bindings) {
    forall x :: x in b ==> x in b1 && b1[x] == b[x]
  }

  /** Filling a pattern's holes from larger bindings gives the same term. */
  lemma {:induction false} SubstMono(p: Pattern, b: Bindings, b1: Bindings, t: Term)
    requires Subst(p, b) == Some(t)
    requires Extends(b1, b)
    ensures Subst(p, b1) == Some(t)
    decreases p, 1
  {
    match p
    case Var(x) =>
    case Lit(u) =>
    case TupleOf(ps) =>
      SubstAllMono(ps, b, b1, SubstAll(ps, b).value);
  }

  lemma {:induction false} SubstAllMono(ps: seq<Pattern>, b: Bindings, b1: Bindings, ts: seq<Term>)
    requires SubstAll(ps, b) == Some(ts)
    requires Extends(b1, b)
    ensures SubstAll(ps, b1) == Some(ts)
    decreases ps, 0
  {
    if ps != [] {
      SubstMono(ps[0], b, b1, Subst(ps[0], b).value);
      SubstAllMono(ps[1..], b, b1, SubstAll(ps[1..], b).value);
    }
  }

  /**
   * Soundness of the matcher: a successful match only adds bindings, and
   * filling the pattern's holes from the result gives back the matched term.
   */
  lemma {:induction false} MatchSound(p: Pattern, t: Term, b: Bindings)
    requires Match(p, t, b).Some?
    ensures Extends(Match(p, t, b).value, b)
    ensures Subst(p, Match(p, t, b).value) == Some(t)
    decreases p, 1
  {
    match p
    case Var(x) =>
    case Lit(u) =>
    case TupleOf(ps) =>
      MatchAllSound(ps, t.elems, b);
  }

  lemma {:induction false} MatchAllSound(ps: seq<Pattern>, ts: seq<Term>, b: Bindings)
    requires |ps| == |ts|
    requires MatchAll(ps, ts, b).Some?
    ensures Extends(MatchAll(ps, ts, b).value, b)
    ensures SubstAll(ps, MatchAll(ps, ts, b).value) == Some(ts)
    decreases ps, 0
  {
    if ps != [] {
      var b1 := Match(ps[0], ts[0], b).value;
      var b2 := MatchAll(ps, ts, b).value;
      MatchSound(ps[0], ts[0], b);
      MatchAllSound(ps[1..], ts[1..], b1);
      SubstMono(ps[0], b1, b2, ts[0]);
      assert [ts[0]] + ts[1..] == ts;
    }
  }

  /**
   * Completeness of the matcher: if some filling `s` of the holes, agreeing
   * with the bindings already made, turns the pattern into `t`, then the
   * match succeeds, and its bindings agree with `s`.
   */
  lemma {:induction false} MatchComplete(p: Pattern, t: Term, b: Bindings, s: Bindings)
    requires Subst(p, s) == Some(t)
    requires Extends(s, b)
    ensures Match(p, t, b).Some?
    ensures Extends(s, Match(p, t, b).value)
    decreases p, 1
  {
    match p
    case Var(x) =>
    case Lit(u) =>
    case TupleOf(ps) =>
      MatchAllComplete(ps, t.elems, b, s);
  }

  lemma {:induction false} MatchAllComplete(ps: seq<Pattern>, ts: seq<Term>, b: Bindings, s: Bindings)
    requires SubstAll(ps, s) == Some(ts)
    requires Extends(s, b)
    ensures |ps| == |ts|
    ensures MatchAll(ps, ts, b).Some?
    ensures Extends(s, MatchAll(ps, ts, b).value)
    decreases ps, 0
  {
    if ps != [] {
      var t0 := Subst(ps[0], s).value;
      var rest := SubstAll(ps[1..], s).value;
      assert ts == [t0] + rest;
      MatchComplete(ps[0], t0, b, s);
      MatchAllComplete(ps[1..], rest, Match(ps[0], t0, b).value, s);
    }
  }

  /** A fresh match succeeds exactly when the term is an instance of the pattern. */
  lemma MatchFreshIff(p: Pattern, t: Term, s: Bindings)
    ensures MatchFresh(p, t).Some? ==> Subst(p, MatchFresh(p, t).value) == Some(t)
    ensures Subst(p, s) == Some(t) ==> MatchFresh(p, t).Some?
  {
    if MatchFresh(p, t).Some? {
      MatchSound(p, t, map[]);
    }
    if Subst(p, s) == Some(t) {
      MatchComplete(p, t, map[], s);
    }
  }
}
