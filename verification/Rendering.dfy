/** Five successive global replaces against one simultaneous substitution. */
module Rendering {
  import opened Wrappers
  import opened Text
  import opened Template

  datatype Values = Values(result: string, sender: string, helo: string, ip: string, recipient: string)

  function ValueOf(v: Values, p: Placeholder): string {
    match p
    case Result_ => v.result
    case Sender => v.sender
    case Helo => v.helo
    case Ip => v.ip
    case Recipient => v.recipient
  }

  /** One `replace` per placeholder, in the given order. */
  function RenderInOrder(order: seq<Placeholder>, t: string, v: Values): string
    decreases order
  {
    if order == [] then t
    else RenderInOrder(order[1..], Replace(t, Token(order[0]), ValueOf(v, order[0])), v)
  }

  /** The replaces of `render_message`. */
  function Render(t: string, v: Values): string {
    RenderInOrder(ALL, t, v)
  }

  /** The placeholder, of these, that a text starts with. */
  function FirstOf(order: seq<Placeholder>, t: string): (r: Option<Placeholder>)
    ensures r.Some? ==> r.value in order && Token(r.value) <= t
    ensures r.None? ==> forall p <- order :: !(Token(p) <= t)
  {
    if order == [] then None else if Token(order[0]) <= t then Some(order[0]) else FirstOf(order[1..], t)
  }

  /** The placeholder a text starts with. */
  function Leading(t: string): Option<Placeholder> {
    FirstOf(ALL, t)
  }

  /** What a reader of the template expects: one pass, every placeholder replaced by its value. */
  function Simultaneous(t: string, v: Values): string
    decreases |t|
  {
    if t == [] then []
    else match Leading(t)
      case Some(p) => ValueOf(v, p) + Simultaneous(t[|Token(p)|..], v)
      case None => [t[0]] + Simultaneous(t[1..], v)
  }

  // ---------- templates in pieces ----------

  datatype Piece = Lit(c: char) | Hole(p: Placeholder) | Val(text: string)

  function Pieces(t: string): seq<Piece>
    decreases |t|
  {
    if t == [] then []
    else match Leading(t)
      case Some(p) => [Hole(p)] + Pieces(t[|Token(p)|..])
      case None => [Lit(t[0])] + Pieces(t[1..])
  }

  function ShowPiece(x: Piece): string {
    match x
    case Lit(c) => [c]
    case Hole(p) => Token(p)
    case Val(text) => text
  }

  function Show(xs: seq<Piece>): string {
    if xs == [] then [] else ShowPiece(xs[0]) + Show(xs[1..])
  }

  function Filled(xs: seq<Piece>, v: Values): string {
    if xs == [] then []
    else (if xs[0].Hole? then ValueOf(v, xs[0].p) else ShowPiece(xs[0])) + Filled(xs[1..], v)
  }

  function Fill(xs: seq<Piece>, p: Placeholder, text: string): (ys: seq<Piece>)
    ensures |ys| == |xs|
    ensures forall i :: 0 <= i < |xs| ==> ys[i] == if xs[i] == Hole(p) then Val(text) else xs[i]
  {
    seq(|xs|, i requires 0 <= i < |xs| => if xs[i] == Hole(p) then Val(text) else xs[i])
  }

  /** Literal text without a `}`. */
  ghost predicate Plain(xs: seq<Piece>) {
    forall i :: 0 <= i < |xs| ==> xs[i].Lit? && xs[i].c != '}'
  }

  /** Only unclosed `{` stand outside the holes. */
  ghost predicate Tame(xs: seq<Piece>) {
    forall i :: 0 <= i < |xs| && xs[i] == Lit('{') ==> Plain(xs[i + 1..])
  }

  /** No occurrence of a token can start inside `s`, whatever follows it. */
  ghost predicate Inert(s: string, p: Placeholder) {
    forall i :: 0 <= i < |s| ==> !(s[i..] <= Token(p)) && !(Token(p) <= s[i..])
  }

  ghost predicate InertValues(xs: seq<Piece>, p: Placeholder) {
    forall i :: 0 <= i < |xs| && xs[i].Val? ==> Inert(xs[i].text, p)
  }

  lemma {:induction false} PlainShown(xs: seq<Piece>)
    requires Plain(xs)
    ensures '}' !in Show(xs)
  {
    if xs != [] {
      PlainShown(xs[1..]);
    }
  }

  lemma {:induction false} PiecesShown(t: string)
    ensures Show(Pieces(t)) == t
    ensures forall i :: 0 <= i < |Pieces(t)| ==> !Pieces(t)[i].Val?
    decreases |t|
  {
    if t != [] {
      match Leading(t)
      case Some(p) =>
        PiecesShown(t[|Token(p)|..]);
        assert Token(p) + t[|Token(p)|..] == t;
      case None =>
        PiecesShown(t[1..]);
        assert [t[0]] + t[1..] == t;
    }
  }

  lemma TokenNeedsClose(t: string, p: Placeholder)
    requires '}' !in t
    ensures !(Token(p) <= t)
  {
    var n := |Token(p)|;
    if n <= |t| {
      assert t[..n][n - 1] == t[n - 1];
    }
  }

  lemma {:induction false} PiecesPlain(t: string)
    requires '}' !in t
    ensures Plain(Pieces(t))
    decreases |t|
  {
    if t != [] {
      forall p ensures !(Token(p) <= t) {
        TokenNeedsClose(t, p);
      }
      PiecesPlain(t[1..]);
    }
  }

  lemma {:induction false} AcceptedPieces(t: string)
    requires Accepted(t)
    ensures Show(Pieces(t)) == t && Tame(Pieces(t))
    ensures forall i :: 0 <= i < |Pieces(t)| ==> !Pieces(t)[i].Val?
    decreases |t|
  {
    PiecesShown(t);
    if t != [] {
      var n := if Leading(t).Some? then |Token(Leading(t).value)| else 1;
      var rest := t[n..];
      AcceptedRest(t, n);
      AcceptedPieces(rest);
      if Leading(t).None? {
        LeadingNone(t);
        assert Pieces(t) == [Lit(t[0])] + Pieces(rest);
      }
      TameCons(Pieces(t)[0], Pieces(rest));
      assert Pieces(t) == [Pieces(t)[0]] + Pieces(rest);
    }
  }

  /** A `{` that starts no placeholder of an accepted template is unclosed. */
  lemma LeadingNone(t: string)
    requires Accepted(t) && t != [] && Leading(t).None?
    ensures t[0] == '{' ==> Plain(Pieces(t[1..]))
  {
    assert t[0..] == t;
    assert !StartsHole(t, 0);
    assert !OpensAt(t, 0);
    if t[0] == '{' {
      PiecesPlain(t[1..]);
    }
  }

  lemma TameCons(x: Piece, xs: seq<Piece>)
    requires Tame(xs) && (x == Lit('{') ==> Plain(xs))
    ensures Tame([x] + xs)
  {
    var ys := [x] + xs;
    forall i | 0 <= i < |ys| && ys[i] == Lit('{') ensures Plain(ys[i + 1..]) {
      assert ys[i + 1..] == xs[i..];
      assert i > 0 ==> xs[i - 1] == Lit('{');
    }
  }

  lemma AcceptedRest(t: string, n: nat)
    requires Accepted(t) && n <= |t|
    ensures Accepted(t[n..])
  {
    var s := t[n..];
    forall i | OpensAt(s, i) ensures StartsHole(s, i) {
      assert s[i..] == t[n + i..];
      assert OpensAt(t, n + i);
    }
  }

  // ---------- one replace ----------

  /** What is not a hole of `p` contains no start of its token. */
  lemma PieceSkipped(x: Piece, rest: seq<Piece>, p: Placeholder, i: nat)
    requires x != Hole(p) && i < |ShowPiece(x)|
    requires x == Lit('{') ==> Plain(rest)
    requires x.Val? ==> Inert(x.text, p)
    ensures !(Token(p) <= ShowPiece(x)[i..] + Show(rest))
  {
    var s, b := ShowPiece(x), Show(rest);
    match x
    case Lit(c) =>
      if c == '{' { PlainShown(rest); }
      assert s[i..] == [c];
      LitSkipped(c, b, Token(p));
    case Hole(q) =>
      assert s[i..][0] == s[i];
      if i == 0 && Token(p) <= s[i..] + b {
        TokenAtStart(s[i..] + b, p, q);
      }
    case Val(text) =>
      if Token(p) <= s[i..] + b {
        PrefixComparable(Token(p), s[i..], b);
      }
  }

  lemma LitSkipped(c: char, b: string, k: string)
    requires |k| >= 2 && k[0] == '{' && k[|k| - 1] == '}'
    requires c == '{' ==> '}' !in b
    ensures !(k <= [c] + b)
  {
    var n := |k| - 1;
    assert n < |[c] + b| ==> ([c] + b)[n] == b[n - 1];
    assert n < |[c] + b| && c == '{' ==> b[n - 1] != '}';
  }

  lemma PrefixComparable(k: string, a: string, b: string)
    requires k <= a + b
    ensures k <= a || a <= k
  {
    assert k == (a + b)[..|k|];
    if |k| <= |a| {
      assert k == a[..|k|];
    } else {
      assert k[..|a|] == a;
    }
  }

  /** One global replace fills exactly the holes of its placeholder. */
  lemma {:induction false} ReplaceFills(xs: seq<Piece>, p: Placeholder, text: string)
    requires Tame(xs) && InertValues(xs, p)
    ensures Replace(Show(xs), Token(p), text) == Show(Fill(xs, p, text))
  {
    if xs != [] {
      var rest := xs[1..];
      assert Tame(rest) by {
        forall i | 0 <= i < |rest| && rest[i] == Lit('{') ensures Plain(rest[i + 1..]) {
          assert xs[i + 1] == Lit('{') && xs[i + 2..] == rest[i + 1..];
        }
      }
      ReplaceFills(rest, p, text);
      assert Fill(xs, p, text)[1..] == Fill(rest, p, text);
      if xs[0] == Hole(p) {
        ReplaceHits(Show(rest), Token(p), text);
      } else {
        forall i | 0 <= i < |ShowPiece(xs[0])| ensures !(Token(p) <= ShowPiece(xs[0])[i..] + Show(rest)) {
          PieceSkipped(xs[0], rest, p, i);
        }
        ReplaceSkips(ShowPiece(xs[0]), Show(rest), Token(p), text);
      }
    }
  }

  lemma {:induction false} FillKeepsMeaning(xs: seq<Piece>, p: Placeholder, v: Values)
    ensures Filled(Fill(xs, p, ValueOf(v, p)), v) == Filled(xs, v)
  {
    if xs != [] {
      FillKeepsMeaning(xs[1..], p, v);
      assert Fill(xs, p, ValueOf(v, p))[1..] == Fill(xs[1..], p, ValueOf(v, p));
    }
  }

  lemma {:induction false} OwnHolesFilled(xs: seq<Piece>, v: Values)
    requires forall i :: 0 <= i < |xs| && xs[i].Hole? ==> ValueOf(v, xs[i].p) == Token(xs[i].p)
    ensures Filled(xs, v) == Show(xs)
  {
    if xs != [] {
      OwnHolesFilled(xs[1..], v);
    }
  }

  lemma {:induction false} PiecesFilled(t: string, v: Values)
    ensures Filled(Pieces(t), v) == Simultaneous(t, v)
    decreases |t|
  {
    if t != [] {
      match Leading(t)
      case Some(p) => PiecesFilled(t[|Token(p)|..], v);
      case None => PiecesFilled(t[1..], v);
    }
  }

  // ---------- all replaces ----------

  /** A value is inert against the placeholders replaced after it. */
  ghost predicate LaterInert(order: seq<Placeholder>, v: Values) {
    forall k, l :: 0 <= k < l < |order| ==> Inert(ValueOf(v, order[k]), order[l])
  }

  lemma FillTame(xs: seq<Piece>, p: Placeholder, text: string)
    requires Tame(xs)
    ensures Tame(Fill(xs, p, text))
  {
    var ys := Fill(xs, p, text);
    forall i | 0 <= i < |ys| && ys[i] == Lit('{') ensures Plain(ys[i + 1..]) {
      var before, after := xs[i + 1..], ys[i + 1..];
      assert xs[i] == Lit('{');
      forall j | 0 <= j < |after| ensures after[j].Lit? && after[j].c != '}' {
        assert before[j].Lit? && after[j] == before[j];
      }
    }
  }

  lemma {:induction false} ReplacesFillAll(order: seq<Placeholder>, xs: seq<Piece>, v: Values)
    requires Tame(xs) && LaterInert(order, v)
    requires forall l :: 0 <= l < |order| ==> InertValues(xs, order[l])
    requires forall i :: 0 <= i < |xs| && xs[i].Hole? ==> xs[i].p in order || ValueOf(v, xs[i].p) == Token(xs[i].p)
    ensures RenderInOrder(order, Show(xs), v) == Filled(xs, v)
    decreases order
  {
    if order == [] {
      OwnHolesFilled(xs, v);
    } else {
      var p, text := order[0], ValueOf(v, order[0]);
      var ys := Fill(xs, p, text);
      ReplaceFills(xs, p, text);
      FillKeepsMeaning(xs, p, v);
      FillTame(xs, p, text);
      forall l | 0 <= l < |order[1..]| ensures InertValues(ys, order[1..][l]) {
        assert InertValues(xs, order[l + 1]) && Inert(ValueOf(v, order[0]), order[l + 1]);
      }
      forall k, l | 0 <= k < l < |order[1..]| ensures Inert(ValueOf(v, order[1..][k]), order[1..][l]) {
        assert Inert(ValueOf(v, order[k + 1]), order[l + 1]);
      }
      assert forall q :: q in order ==> q == p || q in order[1..];
      ReplacesFillAll(order[1..], ys, v);
    }
  }

  ghost predicate BraceFree(s: string) {
    '{' !in s
  }

  lemma EveryPlaceholder(p: Placeholder)
    ensures p in ALL
  {
    match p
    case Result_ => assert ALL[0] == p;
    case Sender => assert ALL[1] == p;
    case Helo => assert ALL[2] == p;
    case Ip => assert ALL[3] == p;
    case Recipient => assert ALL[4] == p;
  }

  lemma BraceFreeInert(s: string, p: Placeholder)
    requires BraceFree(s)
    ensures Inert(s, p)
  {
    forall i | 0 <= i < |s| ensures !(s[i..] <= Token(p)) && !(Token(p) <= s[i..]) {
      assert s[i..][0] == s[i];
    }
  }

  /** Nothing in the value can read as, or grow into, one of these tokens. */
  ghost predicate InertTo(s: string, later: seq<Placeholder>) {
    forall p <- later :: Inert(s, p)
  }

  /** The values that stay apart from the placeholders replaced after them. */
  ghost predicate Separable(sender: string, helo: string) {
    && InertTo(sender, [Ip, Recipient]) && InertTo(helo, [Ip, Recipient])
    && (Inert(sender, Helo) || helo == Token(Helo))
  }

  /**
    On an accepted template the five replaces are the simultaneous substitution, unclosed `{` tail
    included, as soon as sender and helo stay apart from what is replaced after them; the recipient,
    replaced last, may be any text. The result word and the address text have no `{`.
   */
  lemma RenderIsSimultaneous(t: string, v: Values)
    requires Accepted(t)
    requires BraceFree(v.result) && BraceFree(v.ip)
    requires Separable(v.sender, v.helo)
    ensures Render(t, v) == Simultaneous(t, v)
  {
    if Inert(v.sender, Helo) {
      InertSenderRender(t, v);
    } else {
      OwnHeloRender(t, v);
    }
  }

  lemma InertSenderRender(t: string, v: Values)
    requires Accepted(t) && BraceFree(v.result) && BraceFree(v.ip)
    requires Separable(v.sender, v.helo) && Inert(v.sender, Helo)
    ensures Render(t, v) == Simultaneous(t, v)
  {
    forall k, l | 0 <= k < l < |ALL| ensures Inert(ValueOf(v, ALL[k]), ALL[l]) {
      LaterOf(v, ALL[k], ALL[l]);
    }
    forall p: Placeholder ensures p in ALL {
      EveryPlaceholder(p);
    }
    InOrderFaithful(ALL, t, v);
  }

  lemma OwnHeloRender(t: string, v: Values)
    requires Accepted(t) && BraceFree(v.result) && BraceFree(v.ip)
    requires Separable(v.sender, v.helo) && v.helo == Token(Helo)
    ensures Render(t, v) == Simultaneous(t, v)
  {
    var others := [Result_, Sender, Ip, Recipient];
    forall k, l | 0 <= k < l < |others| ensures Inert(ValueOf(v, others[k]), others[l]) {
      LaterOf(v, others[k], others[l]);
    }
    forall p: Placeholder ensures p in others || p == Helo {
      EveryOther(p);
    }
    InOrderFaithful(others, t, v);
    OwnNameSkipped(t, v);
  }

  lemma InOrderFaithful(order: seq<Placeholder>, t: string, v: Values)
    requires Accepted(t) && LaterInert(order, v)
    requires forall p: Placeholder :: p in order || ValueOf(v, p) == Token(p)
    ensures RenderInOrder(order, t, v) == Simultaneous(t, v)
  {
    AcceptedPieces(t);
    PiecesFilled(t, v);
    ReplacesFillAll(order, Pieces(t), v);
  }

  /** Every value is inert to every placeholder after its own, but for a sender and helo. */
  lemma LaterOf(v: Values, p: Placeholder, q: Placeholder)
    requires BraceFree(v.result) && BraceFree(v.ip)
    requires InertTo(v.sender, [Ip, Recipient]) && InertTo(v.helo, [Ip, Recipient])
    requires p != Recipient && (p == Sender ==> q != Result_ && q != Sender && (q == Helo ==> Inert(v.sender, Helo)))
    requires p == Helo ==> q == Ip || q == Recipient
    ensures Inert(ValueOf(v, p), q)
  {
    match p
    case Result_ => BraceFreeInert(v.result, q);
    case Ip => BraceFreeInert(v.ip, q);
    case Sender => assert q == Helo || q in [Ip, Recipient];
    case Helo => assert q in [Ip, Recipient];
  }

  lemma EveryOther(p: Placeholder)
    ensures p in [Result_, Sender, Ip, Recipient] || p == Helo
  {
    var others := [Result_, Sender, Ip, Recipient];
    assert others[0] == Result_ && others[1] == Sender && others[2] == Ip && others[3] == Recipient;
  }

  /** Replacing a text by itself changes nothing. */
  lemma {:induction false} ReplaceItself(s: string, k: string)
    requires k != []
    ensures Replace(s, k, k) == s
    decreases |s|
  {
    if s != [] {
      if k <= s {
        ReplaceItself(s[|k|..], k);
        assert k + s[|k|..] == s;
      } else {
        ReplaceItself(s[1..], k);
        assert [s[0]] + s[1..] == s;
      }
    }
  }

  lemma OwnNameSkipped(t: string, v: Values)
    requires v.helo == Token(Helo)
    ensures RenderInOrder(ALL, t, v) == RenderInOrder([Result_, Sender, Ip, Recipient], t, v)
  {
    var x := RenderInOrder([Result_, Sender], t, v);
    assert ALL == [Result_, Sender] + ([Helo] + [Ip, Recipient]);
    assert [Result_, Sender, Ip, Recipient] == [Result_, Sender] + [Ip, Recipient];
    RenderAppend([Result_, Sender], [Helo] + [Ip, Recipient], t, v);
    RenderAppend([Result_, Sender], [Ip, Recipient], t, v);
    RenderAppend([Helo], [Ip, Recipient], x, v);
    RenderOne(Helo, x, v);
    ReplaceItself(x, Token(Helo));
  }

  lemma RenderOne(p: Placeholder, t: string, v: Values)
    ensures RenderInOrder([p], t, v) == Replace(t, Token(p), ValueOf(v, p))
  {
    assert [p][1..] == [];
  }

  /** With `{`-free values the order of the replaces, even repeated ones, does not matter. */
  lemma OrderIrrelevant(order: seq<Placeholder>, t: string, v: Values)
    requires Accepted(t)
    requires forall p :: BraceFree(ValueOf(v, p))
    requires forall p: Placeholder :: p in order
    ensures RenderInOrder(order, t, v) == Simultaneous(t, v)
  {
    forall k, l | 0 <= k < l < |order| ensures Inert(ValueOf(v, order[k]), order[l]) {
      BraceFreeInert(ValueOf(v, order[k]), order[l]);
    }
    InOrderFaithful(order, t, v);
  }

  // ---------- exactly which values are safe ----------

  ghost predicate Occurs(s: string, k: string) {
    exists i :: 0 <= i < |s| && k <= s[i..]
  }

  lemma OccursIn(s: string, k: string)
    requires s != [] && !(k <= s)
    ensures Occurs(s, k) <==> Occurs(s[1..], k)
  {
    assert s[0..] == s;
    assert forall i :: 1 <= i <= |s| ==> s[i..] == s[1..][i - 1..];
    if Occurs(s, k) {
      var i :| 0 <= i < |s| && k <= s[i..];
      assert k <= s[1..][i - 1..];
    }
    if Occurs(s[1..], k) {
      var i :| 0 <= i < |s[1..]| && k <= s[1..][i..];
      assert k <= s[i + 1..];
    }
  }

  /** A replaced text is in the result; a text without the pattern is its own result. */
  lemma {:induction false} ReplaceContains(s: string, k: string, text: string)
    requires k != []
    ensures if Occurs(s, k) then |Replace(s, k, text)| >= |text| else Replace(s, k, text) == s
    decreases |s|
  {
    if s != [] {
      if k <= s {
        assert s[0..] == s;
      } else {
        ReplaceContains(s[1..], k, text);
        OccursIn(s, k);
        assert [s[0]] + s[1..] == s;
      }
    }
  }

  /** Longer replacements make a text longer, shorter ones shorter. */
  lemma {:induction false} ReplaceLength(s: string, k: string, text: string)
    requires k != []
    ensures |text| >= |k| ==> |Replace(s, k, text)| >= |s|
    ensures |text| <= |k| ==> |Replace(s, k, text)| <= |s|
    decreases |s|
  {
    if s != [] {
      ReplaceLength(if k <= s then s[|k|..] else s[1..], k, text);
    }
  }

  /** Replacing an occurring text by another one changes the result. */
  lemma {:induction false} ReplaceChanges(s: string, k: string, text: string)
    requires k != [] && text != k && Occurs(s, k)
    ensures Replace(s, k, text) != s
    decreases |s|
  {
    if k <= s {
      var rest := s[|k|..];
      var r := Replace(rest, k, text);
      ReplaceLength(rest, k, text);
      assert s == k + rest;
      assert |text| == |k| ==> (text + r)[..|k|] == text && s[..|k|] == k;
    } else {
      OccursIn(s, k);
      ReplaceChanges(s[1..], k, text);
      assert ([s[0]] + Replace(s[1..], k, text))[1..] == Replace(s[1..], k, text);
    }
  }

  // ---------- what successive replaces cannot restore ----------

  /** Two kinds of characters that tell the tokens from each other and from addresses. */
  datatype Kind = AddressKind | LetterI

  predicate IsAddressChar(c: char) {
    '0' <= c <= '9' || 'a' <= c <= 'f' || c == ':' || c == '.'
  }

  predicate OfKind(c: char, kind: Kind) {
    match kind
    case AddressKind => IsAddressChar(c)
    case LetterI => c == 'i'
  }

  function Count(s: string, kind: Kind): nat {
    if s == [] then 0 else (if OfKind(s[0], kind) then 1 else 0) + Count(s[1..], kind)
  }

  /** What an address is printed as: `::` is the shortest. */
  ghost predicate AddressText(s: string) {
    |s| >= 2 && forall c <- s :: IsAddressChar(c)
  }

  lemma {:induction false} CountAppend(s: string, t: string, kind: Kind)
    ensures Count(s + t, kind) == Count(s, kind) + Count(t, kind)
  {
    if s == [] {
      assert s + t == t;
    } else {
      assert (s + t)[0] == s[0] && (s + t)[1..] == s[1..] + t;
      CountAppend(s[1..], t, kind);
    }
  }

  lemma {:induction false} CountAddress(s: string)
    requires forall c <- s :: IsAddressChar(c)
    ensures Count(s, AddressKind) == |s| && Count(s, LetterI) == 0
  {
    if s != [] {
      assert s[0] in s;
      CountAddress(s[1..]);
    }
  }

  /** How often `replace` finds the pattern. */
  function Hits(s: string, k: string): nat
    requires k != []
    decreases |s|
  {
    if s == [] then 0 else if k <= s then 1 + Hits(s[|k|..], k) else Hits(s[1..], k)
  }

  lemma {:induction false} HitsExactly(s: string, k: string, text: string)
    requires k != []
    ensures Hits(s, k) == 0 ==> Replace(s, k, text) == s
    ensures Hits(s, k) > 0 <==> Occurs(s, k)
    decreases |s|
  {
    if s != [] {
      if k <= s {
        assert s[0..] == s;
      } else {
        HitsExactly(s[1..], k, text);
        OccursIn(s, k);
        assert [s[0]] + s[1..] == s;
      }
    }
  }

  /** What a replace does to the number of characters of a kind, when each replacement adds `d` of them. */
  lemma {:induction false} ReplaceCount(s: string, k: string, text: string, kind: Kind, d: int)
    requires k != [] && d == Count(text, kind) - Count(k, kind)
    ensures Count(Replace(s, k, text), kind) == Count(s, kind) + Hits(s, k) * d
    decreases |s|
  {
    if s != [] {
      if k <= s {
        var rest := s[|k|..];
        ReplaceCount(rest, k, text, kind, d);
        CountAppend(text, Replace(rest, k, text), kind);
        assert k + rest == s;
        CountAppend(k, rest, kind);
        OneMore(Hits(rest, k), d);
      } else {
        ReplaceCount(s[1..], k, text, kind, d);
        CountAppend([s[0]], Replace(s[1..], k, text), kind);
        CountAppend([s[0]], s[1..], kind);
        assert [s[0]] + s[1..] == s;
      }
    }
  }

  lemma OneMore(n: nat, d: int)
    ensures (1 + n) * d == d + n * d
  {
  }

  lemma TokenCounts()
    ensures Count(Token(Helo), AddressKind) == 1 && Count(Token(Helo), LetterI) == 0
    ensures Count(Token(Ip), AddressKind) == 0 && Count(Token(Ip), LetterI) == 1
  {
    assert Token(Helo) == "{helo}" && Token(Ip) == "{ip}";
    assert Count("{helo}", AddressKind) == 1 && Count("{helo}", LetterI) == 0;
    assert Count("{ip}", AddressKind) == 0 && Count("{ip}", LetterI) == 1;
  }

  /**
    A text in which the helo name was put for `{helo}` is not restored by putting the address for
    `{ip}`: each `{helo}` takes one `e` away, and each `{ip}` needs an `i` from a helo name and
    brings at least two characters of the address.
   */
  lemma NotRestored(w: string, helo: string, ip: string)
    requires Occurs(w, Token(Helo)) && helo != Token(Helo) && AddressText(ip)
    ensures Replace(Replace(w, Token(Helo), helo), Token(Ip), ip) != w
  {
    TokenCounts();
    ReplaceChanges(w, Token(Helo), helo);
    ReplacedTwice(w, Token(Helo), helo, Token(Ip), ip);
  }

  lemma ReplacedTwice(w: string, k: string, text: string, l: string, ip: string)
    requires k != [] && l != [] && Occurs(w, k) && Replace(w, k, text) != w && AddressText(ip)
    requires Count(k, AddressKind) == 1 && Count(k, LetterI) == 0
    requires Count(l, AddressKind) == 0 && Count(l, LetterI) == 1
    ensures Replace(Replace(w, k, text), l, ip) != w
  {
    var x := Replace(w, k, text);
    HitsExactly(w, k, text);
    HitsExactly(x, l, ip);
    CountAddress(ip);
    if Hits(x, l) > 0 {
      var d: int, i: int := Count(text, AddressKind), Count(text, LetterI);
      ReplaceCount(w, k, text, AddressKind, d - 1);
      ReplaceCount(w, k, text, LetterI, i);
      ReplaceCount(x, l, ip, AddressKind, |ip|);
      ReplaceCount(x, l, ip, LetterI, -1);
      Unbalanced(Hits(w, k), Hits(x, l), d, i, |ip|);
    }
  }

  lemma AddressNotToken(ip: string, p: Placeholder)
    requires AddressText(ip)
    ensures ip != Token(p)
  {
    assert ip[0] in ip;
  }

  lemma Unbalanced(h: nat, i: nat, d: nat, l: nat, n: nat)
    requires h > 0 && i > 0 && n >= 2
    ensures !(h * (d - 1) + i * n == 0 && h * l + i * -1 == 0)
  {
    if h * l == i {
      assert l >= 1;
      assert h * l >= h * 1;
      assert i * n >= i * 2 && h * (d - 1) >= h * -1;
    }
  }

  lemma {:induction false} RenderAppend(a: seq<Placeholder>, b: seq<Placeholder>, t: string, v: Values)
    ensures RenderInOrder(a + b, t, v) == RenderInOrder(b, RenderInOrder(a, t, v), v)
    decreases a
  {
    if a == [] {
      assert a + b == b;
    } else {
      var r := Replace(t, Token(a[0]), ValueOf(v, a[0]));
      calc {
        RenderInOrder(a + b, t, v);
        { assert (a + b)[0] == a[0] && (a + b)[1..] == a[1..] + b; }
        RenderInOrder(a[1..] + b, r, v);
        { RenderAppend(a[1..], b, r, v); }
        RenderInOrder(b, RenderInOrder(a[1..], r, v), v);
        RenderInOrder(b, RenderInOrder(a, t, v), v);
      }
    }
  }

  /** What has to follow `s` for `k` to appear. */
  lemma Completion(s: string, k: string) returns (tail: string)
    requires exists i :: 0 <= i < |s| && (s[i..] <= k || k <= s[i..])
    requires forall i :: 1 <= i < |k| ==> k[i] != '{'
    ensures BraceFree(tail) && Occurs(s + tail, k)
  {
    var i :| 0 <= i < |s| && (s[i..] <= k || k <= s[i..]);
    assert forall tail :: (s + tail)[i..] == s[i..] + tail;
    if k <= s[i..] {
      tail := [];
      assert (s + tail)[i..] == s[i..];
    } else {
      tail := k[|s| - i..];
      assert k == s[i..] + tail;
      assert (s + tail)[i..] == s[i..] + tail;
    }
  }

  /** Text after an inert value does not make the token appear, unless it starts one itself. */
  lemma InertNotOccurs(s: string, tail: string, p: Placeholder)
    requires Inert(s, p) && BraceFree(tail)
    ensures !Occurs(s + tail, Token(p))
  {
    var w := s + tail;
    forall i | 0 <= i < |w| ensures !(Token(p) <= w[i..]) {
      if i < |s| {
        assert w[i..] == s[i..] + tail;
        if Token(p) <= w[i..] {
          PrefixComparable(Token(p), s[i..], tail);
        }
      } else {
        assert w[i..][0] == tail[i - |s|];
      }
    }
  }

  lemma {:induction false} TailPieces(t: string, v: Values)
    requires BraceFree(t)
    ensures Simultaneous(t, v) == t
    ensures forall i :: 0 <= i < |Pieces(t)| ==> Pieces(t)[i].Lit?
  {
    if t != [] {
      assert t[0] != '{';
      TailPieces(t[1..], v);
      assert [t[0]] + t[1..] == t;
    }
  }

  /** A template of one placeholder and text without `{`. */
  lemma OneHole(x: Placeholder, tail: string, v: Values)
    requires BraceFree(tail)
    ensures Accepted(Token(x) + tail)
    ensures Simultaneous(Token(x) + tail, v) == ValueOf(v, x) + tail
    ensures Pieces(Token(x) + tail) == [Hole(x)] + Pieces(tail)
    ensures forall i :: 0 <= i < |Pieces(tail)| ==> Pieces(tail)[i].Lit?
  {
    var t := Token(x) + tail;
    forall j | OpensAt(t, j) ensures StartsHole(t, j) {
      assert j == 0 && Token(x) <= t[0..];
    }
    assert Token(x) <= t;
    TokenAtStart(t, Leading(t).value, x);
    assert t[|Token(x)|..] == tail;
    TailPieces(tail, v);
  }

  /** One replace on a template of one placeholder fills it, or leaves it as it is. */
  lemma ReplaceOneHole(x: Placeholder, tail: string, p: Placeholder, text: string)
    requires BraceFree(tail)
    ensures Replace(Token(x) + tail, Token(p), text) == (if p == x then text else Token(x)) + tail
  {
    forall i | 0 <= i < |tail| ensures !(Token(p) <= tail[i..] + []) {
      assert (tail[i..] + [])[0] == tail[i];
    }
    ReplaceSkips(tail, [], Token(p), text);
    assert tail + [] == tail;
    if p == x {
      ReplaceHits(tail, Token(p), text);
    } else {
      forall i | 0 <= i < |Token(x)| ensures !(Token(p) <= Token(x)[i..] + tail) {
        assert (Token(x)[i..] + tail)[0] == Token(x)[i];
        if i == 0 && Token(p) <= Token(x) + tail {
          TokenAtStart(Token(x) + tail, p, x);
        }
        assert Token(x)[0..] == Token(x);
      }
      ReplaceSkips(Token(x), tail, Token(p), text);
    }
  }

  /** The replaces before that of its one placeholder do not touch such a template. */
  lemma {:induction false} UpToHole(before: seq<Placeholder>, x: Placeholder, tail: string, v: Values)
    requires BraceFree(tail) && x !in before
    ensures RenderInOrder(before + [x], Token(x) + tail, v) == ValueOf(v, x) + tail
    decreases before
  {
    var t := Token(x) + tail;
    if before == [] {
      assert before + [x] == [x];
      RenderOne(x, t, v);
      ReplaceOneHole(x, tail, x, ValueOf(v, x));
    } else {
      var q := before[0];
      ReplaceOneHole(x, tail, q, ValueOf(v, q));
      assert (before + [x])[0] == q && (before + [x])[1..] == before[1..] + [x];
      UpToHole(before[1..], x, tail, v);
    }
  }

  /** Every accepted template is rendered faithfully with these values, whoever the recipient is. */
  ghost predicate AlwaysFaithful(result: string, sender: string, helo: string, ip: string) {
    forall t: string, recipient: string :: Accepted(t) ==> Faithful(t, Values(result, sender, helo, ip, recipient))
  }

  ghost predicate Faithful(t: string, v: Values) {
    Render(t, v) == Simultaneous(t, v)
  }

  lemma Completed(s: string, p: Placeholder) returns (tail: string)
    requires !Inert(s, p)
    ensures BraceFree(tail) && Occurs(s + tail, Token(p))
  {
    tail := Completion(s, Token(p));
  }

  /** What the replaces after helo's make of a template of helo and a tail. */
  lemma HeloTemplate(helo: string, tail: string, v: Values)
    requires v.helo == helo && BraceFree(tail)
    ensures Accepted(Token(Helo) + tail)
    ensures Simultaneous(Token(Helo) + tail, v) == helo + tail
    ensures Render(Token(Helo) + tail, v) == RenderInOrder([Ip, Recipient], helo + tail, v)
  {
    OneHole(Helo, tail, v);
    UpToHole([Result_, Sender], Helo, tail, v);
    assert ALL == [Result_, Sender] + [Helo] + [Ip, Recipient];
    RenderAppend([Result_, Sender] + [Helo], [Ip, Recipient], Token(Helo) + tail, v);
  }

  /** Some recipient with which the last two replaces do not give back `w`. */
  lemma LastTwoSpoil(w: string, x: string, result: string, sender: string, helo: string, ip: string, p: Placeholder)
    returns (recipient: string)
    requires AddressText(ip)
    requires if x == w then p in [Ip, Recipient] && Occurs(w, Token(p)) else Replace(x, Token(Ip), ip) != w
    ensures RenderInOrder([Ip, Recipient], x, Values(result, sender, helo, ip, recipient)) != w
  {
    var y := Replace(x, Token(Ip), ip);
    if x == w && Occurs(w, Token(Ip)) {
      AddressNotToken(ip, Ip);
      ReplaceChanges(w, Token(Ip), ip);
    } else if x == w {
      ReplaceContains(w, Token(Ip), ip);
      ReplaceChanges(w, Token(Recipient), "");
    }
    recipient := if y == w then "" else Token(Recipient);
    LastTwo(x, Values(result, sender, helo, ip, recipient));
    ReplaceItself(y, Token(Recipient));
  }

  lemma LastTwo(x: string, v: Values)
    ensures RenderInOrder([Ip, Recipient], x, v)
         == Replace(Replace(x, Token(Ip), v.ip), Token(Recipient), v.recipient)
  {
    RenderAppend([Ip], [Recipient], x, v);
    assert [Ip] + [Recipient] == [Ip, Recipient];
    RenderOne(Ip, x, v);
    RenderOne(Recipient, Replace(x, Token(Ip), v.ip), v);
  }

  lemma SpoiledByHelo(result: string, sender: string, helo: string, ip: string, p: Placeholder)
    requires p in [Ip, Recipient] && !Inert(helo, p) && AddressText(ip)
    ensures !AlwaysFaithful(result, sender, helo, ip)
  {
    var tail := Completed(helo, p);
    var w := helo + tail;
    var recipient := LastTwoSpoil(w, w, result, sender, helo, ip, p);
    var v := Values(result, sender, helo, ip, recipient);
    HeloTemplate(helo, tail, v);
    assert !Faithful(Token(Helo) + tail, v);
  }

  /** What the replaces after the sender's make of a template of the sender and a tail. */
  lemma SenderTemplate(sender: string, tail: string, v: Values)
    requires v.sender == sender && BraceFree(tail)
    ensures Accepted(Token(Sender) + tail)
    ensures Simultaneous(Token(Sender) + tail, v) == sender + tail
    ensures Render(Token(Sender) + tail, v)
         == RenderInOrder([Ip, Recipient], Replace(sender + tail, Token(Helo), v.helo), v)
  {
    var w := sender + tail;
    OneHole(Sender, tail, v);
    UpToHole([Result_], Sender, tail, v);
    assert ALL == ([Result_] + [Sender]) + [Helo, Ip, Recipient];
    RenderAppend([Result_] + [Sender], [Helo, Ip, Recipient], Token(Sender) + tail, v);
    HeloFirst(w, v);
  }

  lemma HeloFirst(w: string, v: Values)
    ensures RenderInOrder([Helo, Ip, Recipient], w, v)
        == RenderInOrder([Ip, Recipient], Replace(w, Token(Helo), v.helo), v)
  {
    assert [Helo, Ip, Recipient][0] == Helo && [Helo, Ip, Recipient][1..] == [Ip, Recipient];
  }

  /** After the sender, the replace of helo spoils the text for good or leaves it to the later ones. */
  lemma AfterHelo(sender: string, tail: string, helo: string, ip: string, p: Placeholder)
    requires BraceFree(tail) && Occurs(sender + tail, Token(p)) && AddressText(ip)
    requires if p == Helo then helo != Token(Helo) else Inert(sender, Helo) || helo == Token(Helo)
    ensures var w := sender + tail;
            var x := Replace(w, Token(Helo), helo);
            if p == Helo then x != w && Replace(x, Token(Ip), ip) != w else x == w
  {
    var w := sender + tail;
    if p == Helo {
      ReplaceChanges(w, Token(Helo), helo);
      NotRestored(w, helo, ip);
    } else if helo == Token(Helo) {
      ReplaceItself(w, Token(Helo));
    } else {
      InertNotOccurs(sender, tail, Helo);
      ReplaceContains(w, Token(Helo), helo);
    }
  }

  lemma SpoiledBySender(result: string, sender: string, helo: string, ip: string, p: Placeholder)
    requires !Inert(sender, p) && AddressText(ip)
    requires if p == Helo then helo != Token(Helo)
             else p in [Ip, Recipient] && (Inert(sender, Helo) || helo == Token(Helo))
    ensures !AlwaysFaithful(result, sender, helo, ip)
  {
    var tail := Completed(sender, p);
    var w := sender + tail;
    AfterHelo(sender, tail, helo, ip, p);
    var recipient := LastTwoSpoil(w, Replace(w, Token(Helo), helo), result, sender, helo, ip, p);
    var v := Values(result, sender, helo, ip, recipient);
    SenderTemplate(sender, tail, v);
    assert !Faithful(Token(Sender) + tail, v);
  }

  /**
    Exactly when a sender and helo are rendered faithfully by every accepted template, for any
    recipient: when they stay apart from the placeholders replaced after them. This holds at every
    client address and result word alike.
   */
  lemma FaithfulExactly(result: string, sender: string, helo: string, ip: string)
    requires BraceFree(result) && AddressText(ip)
    ensures AlwaysFaithful(result, sender, helo, ip) <==> Separable(sender, helo)
  {
    if Separable(sender, helo) {
      assert BraceFree(ip);
      forall t: string, recipient: string | Accepted(t)
        ensures Faithful(t, Values(result, sender, helo, ip, recipient))
      {
        RenderIsSimultaneous(t, Values(result, sender, helo, ip, recipient));
      }
    } else if !InertTo(helo, [Ip, Recipient]) {
      var p :| p in [Ip, Recipient] && !Inert(helo, p);
      SpoiledByHelo(result, sender, helo, ip, p);
    } else if !Inert(sender, Helo) && helo != Token(Helo) {
      SpoiledBySender(result, sender, helo, ip, Helo);
    } else {
      var p :| p in [Ip, Recipient] && !Inert(sender, p);
      SpoiledBySender(result, sender, helo, ip, p);
    }
  }

  /** The sender `{helo}` is shown as the helo name, where the template asks for the sender. */
  lemma SenderShownAsHelo(v: Values)
    requires v.sender == Token(Helo) && BraceFree(v.helo)
    ensures Accepted(Token(Sender))
    ensures Render(Token(Sender), v) == v.helo
    ensures Simultaneous(Token(Sender), v) == Token(Helo)
  {
    assert Token(Sender) + [] == Token(Sender) && Token(Helo) + [] == Token(Helo);
    SenderTemplate(v.sender, [], v);
    ReplaceHits([], Token(Helo), v.helo);
    assert v.helo + [] == v.helo;
    BraceFreeRendered([Ip, Recipient], v.helo, v);
  }

  /** Each placeholder, written out, is shown as the value that goes by its name. */
  lemma PlaceholdersByName(v: Values)
    requires forall p :: BraceFree(ValueOf(v, p))
    ensures Render("{result}", v) == v.result
    ensures Render("{sender}", v) == v.sender
    ensures Render("{helo}", v) == v.helo
    ensures Render("{ip}", v) == v.ip
    ensures Render("{recipient}", v) == v.recipient
  {
    assert Token(Result_) == "{result}" && Token(Sender) == "{sender}" && Token(Helo) == "{helo}";
    assert Token(Ip) == "{ip}" && Token(Recipient) == "{recipient}";
    OneHoleRendered(Result_, v);
    OneHoleRendered(Sender, v);
    OneHoleRendered(Helo, v);
    OneHoleRendered(Ip, v);
    OneHoleRendered(Recipient, v);
  }

  lemma OneHoleRendered(p: Placeholder, v: Values)
    requires forall q :: BraceFree(ValueOf(v, q))
    ensures Render(Token(p), v) == ValueOf(v, p)
  {
    assert Token(p) + [] == Token(p) && ValueOf(v, p) + [] == ValueOf(v, p);
    OneHole(p, [], v);
    forall q: Placeholder ensures q in ALL {
      EveryPlaceholder(q);
    }
    OrderIrrelevant(ALL, Token(p), v);
  }

  /** A text without `{` is its own rendering. */
  lemma {:induction false} BraceFreeRendered(order: seq<Placeholder>, t: string, v: Values)
    requires BraceFree(t)
    ensures RenderInOrder(order, t, v) == t
    decreases order
  {
    if order != [] {
      forall i | 0 <= i < |t| ensures !(Token(order[0]) <= t[i..]) {
        assert t[i..][0] == t[i];
      }
      ReplaceContains(t, Token(order[0]), ValueOf(v, order[0]));
      BraceFreeRendered(order[1..], t, v);
    }
  }

  /** With one-line values a message is one line exactly when its template is. */
  lemma {:induction false} RenderOneLine(order: seq<Placeholder>, t: string, v: Values)
    requires forall p :: OneLine(ValueOf(v, p))
    ensures OneLine(RenderInOrder(order, t, v)) <==> OneLine(t)
    decreases order
  {
    if order != [] {
      TokenOneLine(order[0]);
      ReplaceOneLine(t, Token(order[0]), ValueOf(v, order[0]));
      RenderOneLine(order[1..], Replace(t, Token(order[0]), ValueOf(v, order[0])), v);
    }
  }

  lemma TokenOneLine(p: Placeholder)
    ensures OneLine(Token(p))
  {
  }
}
