/** Message templates: what validation accepts, and what five successive replaces compute. */
module Template {
  import opened Wrappers
  import opened Text

  datatype Placeholder = Result_ | Sender | Helo | Ip | Recipient

  const ALL: seq<Placeholder> := [Result_, Sender, Helo, Ip, Recipient]

  function Name(p: Placeholder): string {
    match p
    case Result_ => "result"
    case Sender => "sender"
    case Helo => "helo"
    case Ip => "ip"
    case Recipient => "recipient"
  }

  function Token(p: Placeholder): (t: string)
    ensures |t| >= 4 && t[0] == '{' && t[|t| - 1] == '}'
    ensures forall i :: 1 <= i < |t| ==> t[i] != '{'
    ensures forall i :: 0 <= i < |t| - 1 ==> t[i] != '}'
  {
    "{" + Name(p) + "}"
  }

  /** No token starts another one. */
  lemma TokensDiffer(p: Placeholder, q: Placeholder)
    ensures Token(p) <= Token(q) ==> p == q
  {
    if Token(p) <= Token(q) {
      assert Token(q)[|Token(p)| - 1] == '}';
      assert Token(p) == Token(q);
      assert Name(p) == Token(p)[1..|Token(p)| - 1] == Name(q);
      assert Name(p)[0] == Name(q)[0];
    }
  }

  /** At most one token starts a text. */
  lemma TokenAtStart(s: string, p: Placeholder, q: Placeholder)
    requires Token(p) <= s && Token(q) <= s
    ensures p == q
  {
    if |Token(p)| <= |Token(q)| {
      assert Token(p) == s[..|Token(p)|] <= Token(q);
      TokensDiffer(p, q);
    } else {
      TokensDiffer(q, p);
    }
  }

  // ---------- str::replace ----------

  /** `str::replace`: left to right, without overlaps. */
  function Replace(s: string, pattern: string, value: string): string
    requires pattern != []
    decreases |s|
  {
    if s == [] then []
    else if pattern <= s then value + Replace(s[|pattern|..], pattern, value)
    else [s[0]] + Replace(s[1..], pattern, value)
  }

  /** A part in which no occurrence starts is copied. */
  lemma {:induction false} ReplaceSkips(a: string, b: string, pattern: string, value: string)
    requires pattern != []
    requires forall i :: 0 <= i < |a| ==> !(pattern <= a[i..] + b)
    ensures Replace(a + b, pattern, value) == a + Replace(b, pattern, value)
  {
    if a == [] {
      assert a + b == b;
    } else {
      assert a[0..] == a;
      assert (a + b)[1..] == a[1..] + b;
      forall i | 0 <= i < |a[1..]| ensures !(pattern <= a[1..][i..] + b) {
        assert a[1..][i..] == a[i + 1..];
      }
      ReplaceSkips(a[1..], b, pattern, value);
      assert [a[0]] + (a[1..] + Replace(b, pattern, value)) == a + Replace(b, pattern, value);
    }
  }

  lemma ReplaceHits(b: string, pattern: string, value: string)
    requires pattern != []
    ensures Replace(pattern + b, pattern, value) == value + Replace(b, pattern, value)
  {
    assert (pattern + b)[|pattern|..] == b;
  }

  /** Replacing one-line text by one-line text neither adds nor removes a newline. */
  lemma {:induction false} ReplaceOneLine(s: string, pattern: string, value: string)
    requires pattern != [] && OneLine(pattern) && OneLine(value)
    ensures OneLine(Replace(s, pattern, value)) <==> OneLine(s)
    decreases |s|
  {
    if s != [] {
      if pattern <= s {
        ReplaceOneLine(s[|pattern|..], pattern, value);
        assert s == pattern + s[|pattern|..];
      } else {
        ReplaceOneLine(s[1..], pattern, value);
        assert s == [s[0]] + s[1..];
      }
    }
  }

  // ---------- validation ----------

  /** The offset of the first `c`. */
  function Find(s: string, c: char): (r: Option<nat>)
    ensures r.None? <==> c !in s
    ensures r.Some? ==> r.value < |s| && s[r.value] == c && c !in s[..r.value]
  {
    if s == [] then None
    else if s[0] == c then Some(0)
    else match Find(s[1..], c)
      case None => None
      case Some(i) => assert s[..i + 1] == [s[0]] + s[1..][..i]; Some(i + 1)
  }

  /** Every `{` that is closed by a later `}` starts a placeholder. */
  ghost predicate Accepted(t: string) {
    forall i :: OpensAt(t, i) ==> StartsHole(t, i)
  }

  ghost predicate StartsHole(t: string, i: int) {
    0 <= i < |t| && exists p :: Token(p) <= t[i..]
  }

  ghost predicate OpensAt(t: string, i: int) {
    0 <= i < |t| && t[i] == '{' && '}' in t[i..]
  }

  predicate Known(name: string) {
    exists p: Placeholder :: name == Name(p)
  }

  lemma KnownToken(name: string)
    ensures Known(name) <==> exists p :: Token(p) == ['{'] + name + ['}']
  {
    forall p | Token(p) == ['{'] + name + ['}'] ensures Known(name) {
      assert Name(p) == Token(p)[1..|Token(p)| - 1] == name;
    }
    if Known(name) {
      var p :| name == Name(p);
      assert Token(p) == ['{'] + name + ['}'];
    }
  }

  /** `name` is what stands between the first closed `{` that starts no placeholder, at `i`, and the next `}`. */
  ghost predicate Reports(t: string, i: int, name: string) {
    && OpensAt(t, i) && !StartsHole(t, i) && HolesUpTo(t, i)
    && '}' !in name && !Known(name) && ['{'] + name + ['}'] <= t[i..]
  }

  /**
    `validate_placeholders`: it succeeds exactly on accepted templates, and otherwise reports the
    text between the first `{` that starts no placeholder and the next `}`.
   */
  method ValidatePlaceholders(template: string) returns (r: Result<(), string>)
    ensures r.Ok? <==> Accepted(template)
    ensures r.Err? ==> exists i :: Reports(template, i, r.error)
  {
    var rest := template;
    ghost var done := 0;
    while true
      invariant 0 <= done <= |template| && rest == template[done..]
      invariant HolesUpTo(template, done)
      decreases |rest|
    {
      match Find(rest, '{') {
        case None =>
          NoOpenLeft(template, done);
          return Ok(());
        case Some(open) =>
          var afterOpen := rest[open + 1..];
          match Find(afterOpen, '}') {
            case None =>
              NoCloseLeft(template, done, open);
              return Ok(());
            case Some(close) =>
              var placeholder := afterOpen[..close];
              Scanned(template, done, rest, open, close);
              if !Known(placeholder) {
                return Err(placeholder);
              }
              rest := afterOpen[close + 1..];
              done := done + open + close + 2;
          }
      }
    }
  }

  /** One round of the scan, in the terms of the loop. */
  lemma Scanned(t: string, done: nat, rest: string, open: nat, close: nat)
    requires done <= |t| && rest == t[done..] && HolesUpTo(t, done)
    requires open < |rest| && rest[open] == '{' && '{' !in rest[..open]
    requires var after := rest[open + 1..]; close < |after| && after[close] == '}' && '}' !in after[..close]
    ensures var after, next := rest[open + 1..], done + open + close + 2;
            && next <= |t| && after[close + 1..] == t[next..]
            && if Known(after[..close]) then HolesUpTo(t, next)
               else !Accepted(t) && Reports(t, done + open, after[..close])
  {
    var after := rest[open + 1..];
    RoundIndices(t, done, rest, open, after, close);
    Round(t, done, done + open, done + open + 1 + close, after[..close]);
    if !Known(after[..close]) {
      ReportedRejected(t, done + open, after[..close]);
    }
  }

  lemma ReportedRejected(t: string, i: int, name: string)
    requires Reports(t, i, name)
    ensures !Accepted(t)
  {
  }

  /** Every closed `{` before `n` starts a placeholder. */
  ghost predicate HolesUpTo(t: string, n: int) {
    forall i :: i < n && OpensAt(t, i) ==> StartsHole(t, i)
  }

  lemma NoOpenLeft(t: string, done: nat)
    requires done <= |t| && HolesUpTo(t, done) && '{' !in t[done..]
    ensures Accepted(t)
  {
    assert forall k :: done <= k < |t| ==> t[k] == t[done..][k - done];
  }

  /** No `ch` from `from` up to `to`. */
  ghost predicate Lacks(t: string, from: nat, to: nat, ch: char) {
    forall k :: from <= k < to && k < |t| ==> t[k] != ch
  }

  /** One round of the scan found the next `{` at `i` and the next `}` at `c`. */
  lemma Round(t: string, done: nat, i: nat, c: nat, name: string)
    requires done <= i < c < |t| && name == t[i + 1..c] && HolesUpTo(t, done)
    requires t[i] == '{' && t[c] == '}'
    requires Lacks(t, done, i, '{') && Lacks(t, i + 1, c, '}')
    ensures if Known(name) then HolesUpTo(t, c + 1) else Reports(t, i, name)
  {
    ScannedHole(t, i, c);
    if Known(name) {
      forall j | j < c + 1 && OpensAt(t, j) ensures StartsHole(t, j) {
        assert j < done || j == i;
      }
    }
  }

  /** The scan's offsets into the rest of the template, as offsets into the template. */
  lemma RoundIndices(t: string, done: nat, rest: string, open: nat, afterOpen: string, close: nat)
    requires done <= |t| && rest == t[done..]
    requires open < |rest| && rest[open] == '{' && '{' !in rest[..open] && afterOpen == rest[open + 1..]
    requires close < |afterOpen| && afterOpen[close] == '}' && '}' !in afterOpen[..close]
    ensures var i, c := done + open, done + open + 1 + close;
            && c < |t| && t[i] == '{' && t[c] == '}'
            && afterOpen[..close] == t[i + 1..c]
            && afterOpen[close + 1..] == t[c + 1..]
            && Lacks(t, done, i, '{') && Lacks(t, i + 1, c, '}')
  {
    var i, c := done + open, done + open + 1 + close;
    assert afterOpen == t[i + 1..];
    assert forall k :: done <= k < i ==> t[k] == rest[..open][k - done];
    assert forall k :: i < k < c ==> t[k] == afterOpen[..close][k - i - 1];
  }

  /** After an unclosed `{` no `{` is closed. */
  lemma NoCloseLeft(t: string, done: nat, open: nat)
    requires done + open < |t| && HolesUpTo(t, done)
    requires t[done + open] == '{' && '{' !in t[done..][..open] && '}' !in t[done..][open + 1..]
    ensures Accepted(t)
  {
    var rest, first := t[done..], done + open;
    assert forall k :: done <= k < first ==> t[k] == rest[..open][k - done];
    assert forall k :: first < k < |t| ==> t[k] == rest[open + 1..][k - first - 1];
    forall i | first <= i < |t| ensures '}' !in t[i..] {
      assert forall k :: 0 <= k < |t[i..]| ==> t[i..][k] == t[i + k];
    }
  }

  /** The text between a `{` and the next `}` is a known name exactly when a placeholder starts there. */
  lemma ScannedHole(t: string, i: nat, c: nat)
    requires i < c < |t| && t[i] == '{' && t[c] == '}'
    requires forall k :: i < k < c ==> t[k] != '}'
    ensures OpensAt(t, i) && ['{'] + t[i + 1..c] + ['}'] <= t[i..]
    ensures '}' !in t[i + 1..c]
    ensures Known(t[i + 1..c]) <==> StartsHole(t, i)
    ensures Known(t[i + 1..c]) ==> forall k :: i < k <= c ==> t[k] != '{'
  {
    var s, name := t[i..], t[i + 1..c];
    assert forall k :: 0 <= k < |s| ==> s[k] == t[i + k];
    assert s[c - i] == '}';
    assert s[..c - i + 1] == ['{'] + name + ['}'];
    KnownToken(name);
    forall p | Token(p) <= s ensures Token(p) == ['{'] + name + ['}'] {
      TokenEnds(s, c - i, p);
    }
    forall p | Token(p) == ['{'] + name + ['}'] ensures Token(p) <= s {
    }
    if Known(name) {
      var p :| Token(p) == ['{'] + name + ['}'];
      forall k | i < k <= c ensures t[k] != '{' {
        assert t[k] == s[..c - i + 1][k - i];
      }
    }
  }

  /** A token at the start of a text ends at the text's first `}`. */
  lemma TokenEnds(s: string, close: nat, p: Placeholder)
    requires close < |s| && s[close] == '}' && Token(p) <= s
    requires forall k :: 0 <= k < close ==> s[k] != '}'
    ensures |Token(p)| == close + 1
  {
    var n := |Token(p)|;
    assert s[n - 1] == Token(p)[n - 1];
    assert close < n - 1 ==> s[close] == Token(p)[close];
  }
}
