/** The resolver decorator that answers TXT questions from configured records. */
module Override {
  import opened Wrappers
  import opened Text

  datatype Question =
    | AskA(name: string)
    | AskAaaa(name: string)
    | AskMx(name: string)
    | AskTxt(name: string)
    | AskPtr(ip: string)

  /** The texts of the records found, or a lookup error. */
  datatype Answer = Records(records: seq<string>) | Failed(error: string)

  type Resolver = Question -> Answer

  type Overrides = map<string, string>

  /** `OverrideLookup`: TXT questions by lowercased name, all others to the inner resolver. */
  function Lookup(inner: Resolver, overrides: Overrides): Resolver {
    (q: Question) => match q
      case AskTxt(name) =>
        if Lower(name) in overrides then Records([overrides[Lower(name)]]) else inner(q)
      case _ => inner(q)
  }

  /** A TXT table with these records in it, names compared without regard to case. */
  ghost predicate IsOverlay(r: Resolver, inner: Resolver, overrides: Overrides) {
    && (forall q: Question :: !q.AskTxt? ==> r(q) == inner(q))
    && (forall name, key :: key in overrides && Lower(key) == Lower(name) ==>
        r(AskTxt(name)) == Records([overrides[key]]))
    && (forall name :: (forall key <- overrides :: Lower(key) != Lower(name)) ==>
        r(AskTxt(name)) == inner(AskTxt(name)))
  }

  /** Every key is written in lower case. */
  ghost predicate LowerKeys(overrides: Overrides) {
    forall key <- overrides :: Lower(key) == key
  }

  /** What the keys must satisfy: the lowercased form of each is a key with the same record. */
  ghost predicate ClosedUnderLower(overrides: Overrides) {
    forall key <- overrides :: Lower(key) in overrides && overrides[Lower(key)] == overrides[key]
  }

  /** With lowercased keys the decorator is the overlay. */
  lemma LookupIsOverlay(inner: Resolver, overrides: Overrides)
    requires LowerKeys(overrides)
    ensures IsOverlay(Lookup(inner, overrides), inner, overrides)
  {
    ClosedIsOverlay(inner, overrides);
  }

  ghost predicate AlwaysOverlay(overrides: Overrides) {
    forall inner: Resolver :: IsOverlay(Lookup(inner, overrides), inner, overrides)
  }

  lemma UnreachableRecord(overrides: Overrides, key: string) returns (inner: Resolver)
    requires key in overrides && !(Lower(key) in overrides && overrides[Lower(key)] == overrides[key])
    ensures !IsOverlay(Lookup(inner, overrides), inner, overrides)
  {
    inner := _ => Failed("no such name");
    var answer := Lookup(inner, overrides)(AskTxt(key));
    if Lower(key) in overrides {
      assert answer == Records([overrides[Lower(key)]]);
      assert [overrides[Lower(key)]][0] != [overrides[key]][0];
    } else {
      assert answer == Failed("no such name");
    }
    assert answer != Records([overrides[key]]);
  }

  /** For every inner resolver the decorator is the overlay exactly when the keys are closed under lowercasing. */
  lemma OverlayExactly(overrides: Overrides)
    ensures AlwaysOverlay(overrides) <==> ClosedUnderLower(overrides)
  {
    if ClosedUnderLower(overrides) {
      forall inner: Resolver ensures IsOverlay(Lookup(inner, overrides), inner, overrides) {
        ClosedIsOverlay(inner, overrides);
      }
    } else {
      var key :| key in overrides && !(Lower(key) in overrides && overrides[Lower(key)] == overrides[key]);
      var inner := UnreachableRecord(overrides, key);
    }
  }

  lemma ClosedIsOverlay(inner: Resolver, overrides: Overrides)
    requires ClosedUnderLower(overrides)
    ensures IsOverlay(Lookup(inner, overrides), inner, overrides)
  {
    forall name, key | key in overrides && Lower(key) == Lower(name)
      ensures Lookup(inner, overrides)(AskTxt(name)) == Records([overrides[key]])
    {
    }
    forall name | forall key <- overrides :: Lower(key) != Lower(name)
      ensures Lookup(inner, overrides)(AskTxt(name)) == inner(AskTxt(name))
    {
      LowerTwice(name);
      assert Lower(Lower(name)) == Lower(name);
    }
  }

  // ---------- when two tables decorate alike ----------

  /** The records found under lowercased names; the others are never asked for. */
  function Effective(overrides: Overrides): Overrides {
    map key | key in overrides && Lower(key) == key :: overrides[key]
  }

  ghost predicate DecorateAlike(o: Overrides, o': Overrides) {
    forall inner: Resolver, q: Question :: Lookup(inner, o)(q) == Lookup(inner, o')(q)
  }

  /** A question two tables with different effective records answer differently, over some resolver. */
  lemma ToldApart(o: Overrides, o': Overrides) returns (inner: Resolver, q: Question)
    requires Effective(o) != Effective(o')
    ensures Lookup(inner, o)(q) != Lookup(inner, o')(q)
  {
    var e, e' := Effective(o), Effective(o');
    var key :| !(key in e <==> key in e') || (key in e && key in e' && e[key] != e'[key]);
    assert Lower(key) == key;
    inner, q := _ => Failed("no such name"), AskTxt(key);
    if key in e && key in e' {
      assert [e[key]][0] != [e'[key]][0];
      assert Lookup(inner, o)(q) == Records([e[key]]) && Lookup(inner, o')(q) == Records([e'[key]]);
    }
  }

  /** Two tables give the same decorator exactly when they have the same records under lowercased names. */
  lemma DecorateAlikeExactly(o: Overrides, o': Overrides)
    ensures DecorateAlike(o, o') <==> Effective(o) == Effective(o')
  {
    if Effective(o) != Effective(o') {
      var inner, q := ToldApart(o, o');
    } else {
      forall inner: Resolver, q: Question ensures Lookup(inner, o)(q) == Lookup(inner, o')(q) {
        if q.AskTxt? {
          var key := Lower(q.name);
          LowerTwice(q.name);
          assert key in o <==> key in Effective(o);
          assert key in o' <==> key in Effective(o');
        }
      }
    }
  }

  // ---------- adaptive evaluations ----------

  datatype Move<R> = Ask(question: Question) | Done(result: R)

  /** An evaluation: the next move after every sequence of answers. */
  type Strategy<R> = seq<Answer> -> Move<R>

  /** The answers and the last move after at most `steps` questions. */
  function Evaluate<R>(strategy: Strategy<R>, resolver: Resolver, answers: seq<Answer>, steps: nat)
    : (seq<Answer>, Move<R>)
    decreases steps
  {
    var move := strategy(answers);
    if move.Done? || steps == 0 then (answers, move)
    else Evaluate(strategy, resolver, answers + [resolver(move.question)], steps - 1)
  }

  lemma {:induction false} SameEvaluation<R>(strategy: Strategy<R>, r: Resolver, r': Resolver, answers: seq<Answer>,
                                             steps: nat)
    requires forall q :: r(q) == r'(q)
    ensures Evaluate(strategy, r, answers, steps) == Evaluate(strategy, r', answers, steps)
    decreases steps
  {
    var move := strategy(answers);
    if move.Ask? && steps > 0 {
      SameEvaluation(strategy, r, r', answers + [r(move.question)], steps - 1);
    }
  }

  lemma OverlayUnique(r: Resolver, r': Resolver, inner: Resolver, overrides: Overrides)
    requires IsOverlay(r, inner, overrides) && IsOverlay(r', inner, overrides)
    ensures forall q :: r(q) == r'(q)
  {
    forall q ensures r(q) == r'(q) {
      if q.AskTxt? {
        if key :| key in overrides && Lower(key) == Lower(q.name) {
          assert r(AskTxt(q.name)) == Records([overrides[key]]);
          assert r'(AskTxt(q.name)) == Records([overrides[key]]);
        } else {
          assert r(AskTxt(q.name)) == inner(AskTxt(q.name));
        }
      }
    }
  }

  /**
    Any evaluation, however its questions depend on the answers, goes the same way through the
    decorator as against a resolver whose TXT table has the records: an override also holds for
    names reached through `include:` and `redirect=`.
   */
  lemma EvaluationSeesOverlay<R>(strategy: Strategy<R>, inner: Resolver, overrides: Overrides, overlaid: Resolver,
                                 steps: nat)
    requires ClosedUnderLower(overrides) && IsOverlay(overlaid, inner, overrides)
    ensures Evaluate(strategy, Lookup(inner, overrides), [], steps) == Evaluate(strategy, overlaid, [], steps)
  {
    ClosedIsOverlay(inner, overrides);
    OverlayUnique(Lookup(inner, overrides), overlaid, inner, overrides);
    SameEvaluation(strategy, Lookup(inner, overrides), overlaid, [], steps);
  }
}
