/** What a condition means: its three-valued result where the value of each single test is given. */
module CondMeaning {
  import opened Condition

  datatype Truth = True | False | Unknown

  /** Kleene's three-valued connectives, as section 2.4.4.17.7 of MS-DTYP gives them. */
  function AndT(x: Truth, y: Truth): Truth {
    if x.False? || y.False? then False else if x.True? && y.True? then True else Unknown
  }

  function OrT(x: Truth, y: Truth): Truth {
    if x.True? || y.True? then True else if x.False? && y.False? then False else Unknown
  }

  function NotT(x: Truth): Truth {
    match x case True => False case False => True case Unknown => Unknown
  }

  /** The value of a condition where `env` gives the value of each single test. */
  function Eval(env: Cond -> Truth, c: Cond): Truth {
    match c
    case And(a, b) => AndT(Eval(env, a), Eval(env, b))
    case Or(a, b) => OrT(Eval(env, a), Eval(env, b))
    case Not(d) => NotT(Eval(env, d))
    case _ => env(c)
  }

  /** False, unknown, true, in that order. */
  function Degree(x: Truth): nat {
    match x case False => 0 case Unknown => 1 case True => 2
  }

  /** The connectives are the lesser, the greater and the reverse in that order. */
  lemma Kleene(x: Truth, y: Truth)
    ensures Degree(AndT(x, y)) == if Degree(x) <= Degree(y) then Degree(x) else Degree(y)
    ensures Degree(OrT(x, y)) == if Degree(x) >= Degree(y) then Degree(x) else Degree(y)
    ensures Degree(NotT(x)) == 2 - Degree(x)
  {
  }
}
