/**
 * The two regular expressions the form validators test values against,
 * written out as predicates over strings.
 */
module Patterns {

  import opened Wrappers
  import opened Strings

  // ---------------------------------------------------------------
  // E-mail: /^[^\s@]+@[^\s@]+\.[^\s@]+$/
  // ---------------------------------------------------------------

  /** `[^\s@]+`: a non-empty run without white space and without `@`. */
  predicate PlainRun(s: string) {
    |s| > 0 && forall k :: 0 <= k < |s| ==> !IsSpace(s[k]) && s[k] != '@'
  }

  /** The regular expression read literally: a local part, `@`, a domain part,
      a dot and a final part, each part a plain run. The domain part may hold
      further dots; the match splits at one dot with text on both sides. */
  ghost predicate EmailPattern(s: string) {
    exists i, j :: EmailSplit(s, i, j)
  }

  /** `s` matches the e-mail expression with its `@` at `i` and the separating dot at `j`. */
  ghost predicate EmailSplit(s: string, i: int, j: int) {
    0 < i < j < |s| - 1 && s[i] == '@' && s[j] == '.'
      && PlainRun(s[..i]) && PlainRun(s[i + 1..j]) && PlainRun(s[j + 1..])
  }

  /** The e-mail test as the validators apply it: no white space anywhere, a single
      `@` that is not the first character, and a dot after it with at least one
      character on each side. */
  predicate IsEmail(s: string)
    ensures IsEmail(s) ==> NoSpace(s) && '@' in s
    ensures IsEmail(s) ==>
      forall k, m :: 0 <= k < |s| && 0 <= m < |s| && s[k] == '@' && s[m] == '@' ==> k == m
  {
    match IndexOf(s, '@')
    case None => false
    case Some(i) =>
      SingleAt(s, i);
      && 0 < i && i + 2 <= |s| - 1
      && NoSpace(s) && '@' !in s[i + 1..] && '.' in s[i + 2..|s| - 1]
  }

  /** When `i` is the first `@` and none follows it, every `@` of `s` sits at `i`. */
  lemma SingleAt(s: string, i: nat)
    requires i < |s| && s[i] == '@' && '@' !in s[..i]
    ensures '@' !in s[i + 1..] ==>
      forall k, m :: 0 <= k < |s| && 0 <= m < |s| && s[k] == '@' && s[m] == '@' ==> k == m
  {
    if '@' !in s[i + 1..] {
      forall k | 0 <= k < |s| && s[k] == '@' ensures k == i {
      }
    }
  }

  /** The executable test and the regular expression accept exactly the same strings. */
  lemma EmailTestMatchesPattern(s: string)
    ensures IsEmail(s) <==> EmailPattern(s)
  {
    if IsEmail(s) {
      EmailFromTest(s);
    }
    if EmailPattern(s) {
      EmailToTest(s);
    }
  }

  lemma EmailFromTest(s: string)
    requires IsEmail(s)
    ensures EmailPattern(s)
  {
    var i := IndexOf(s, '@').value;
    var t := s[i + 2..|s| - 1];
    var d :| 0 <= d < |t| && t[d] == '.';
    var j := i + 2 + d;
    assert s[j] == '.';
    forall k | 0 <= k < |s| ensures !IsSpace(s[k]) && (k != i ==> s[k] != '@') {
      if k < i {
        assert s[k] == s[..i][k];
      } else if k > i {
        assert s[k] == s[i + 1..][k - i - 1];
      }
    }
    RunOfSlice(s, 0, i);
    RunOfSlice(s, i + 1, j);
    RunOfSlice(s, j + 1, |s|);
    assert EmailSplit(s, i, j);
  }

  lemma EmailToTest(s: string)
    requires EmailPattern(s)
    ensures IsEmail(s)
  {
    var i, j :| EmailSplit(s, i, j);
    SliceOfRun(s, 0, i);
    SliceOfRun(s, i + 1, j);
    SliceOfRun(s, j + 1, |s|);
    assert forall k :: 0 <= k < |s| ==> !IsSpace(s[k]) && (k != i ==> s[k] != '@');
    assert '@' !in s[..i];
    assert IndexOf(s, '@') == Some(i);
    assert '@' !in s[i + 1..];
    assert s[i + 2..|s| - 1][j - i - 2] == '.';
  }

  /** A slice whose characters are all plain is a plain run when it is not empty. */
  lemma RunOfSlice(s: string, a: nat, b: nat)
    requires a < b <= |s|
    requires forall k :: a <= k < b ==> !IsSpace(s[k]) && s[k] != '@'
    ensures PlainRun(s[a..b])
  {
  }

  /** Every character of a plain-run slice is plain. */
  lemma SliceOfRun(s: string, a: nat, b: nat)
    requires a <= b <= |s| && PlainRun(s[a..b])
    ensures forall k :: a <= k < b ==> !IsSpace(s[k]) && s[k] != '@'
  {
    forall k | a <= k < b ensures !IsSpace(s[k]) && s[k] != '@' {
      assert s[k] == s[a..b][k - a];
    }
  }

  // ---------------------------------------------------------------
  // Phone: /^[\+]?[(]?[0-9]{1,4}[)]?[-\s\.]?[(]?[0-9]{1,4}[)]?[-\s\.]?[0-9]{1,9}$/
  // ---------------------------------------------------------------

  /** The character classes the phone pattern is built from. */
  datatype CharClass = PlusSign | OpenParen | CloseParen | Digit | Separator

  predicate InClass(c: char, cls: CharClass) {
    match cls
    case PlusSign => c == '+'
    case OpenParen => c == '('
    case CloseParen => c == ')'
    case Digit => '0' <= c <= '9'
    case Separator => c == '-' || c == '.' || IsSpace(c)
  }

  /** One element of the pattern: a class repeated between `min` and `max` times. */
  datatype Piece = Piece(cls: CharClass, min: nat, max: nat)

  /** The phone pattern, piece by piece (`?` is {0,1}). */
  const PhonePieces: seq<Piece> := [
    Piece(PlusSign, 0, 1), Piece(OpenParen, 0, 1), Piece(Digit, 1, 4), Piece(CloseParen, 0, 1),
    Piece(Separator, 0, 1), Piece(OpenParen, 0, 1), Piece(Digit, 1, 4), Piece(CloseParen, 0, 1),
    Piece(Separator, 0, 1), Piece(Digit, 1, 9)
  ]

  predicate AllIn(s: string, cls: CharClass) {
    forall k :: 0 <= k < |s| ==> InClass(s[k], cls)
  }

  /** An anchored match of the whole of `s` against the pieces `ps`, with backtracking
      over every repetition count each piece allows. */
  predicate Matches(ps: seq<Piece>, s: string)
    decreases |ps|
  {
    if ps == [] then s == []
    else exists n | ps[0].min <= n <= ps[0].max && n <= |s| ::
      AllIn(s[..n], ps[0].cls) && Matches(ps[1..], s[n..])
  }

  function MinLength(ps: seq<Piece>): nat {
    if ps == [] then 0 else ps[0].min + MinLength(ps[1..])
  }

  function MaxLength(ps: seq<Piece>): nat {
    if ps == [] then 0 else ps[0].max + MaxLength(ps[1..])
  }

  /** A matched string is as long as the pieces demand at least and allow at most,
      and every character of it belongs to the class of some piece. */
  lemma {:induction false} MatchBounds(ps: seq<Piece>, s: string)
    requires Matches(ps, s)
    ensures MinLength(ps) <= |s| <= MaxLength(ps)
    ensures forall k :: 0 <= k < |s| ==> exists p :: p in ps && InClass(s[k], p.cls)
    decreases |ps|
  {
    if ps != [] {
      var n :| ps[0].min <= n <= ps[0].max && n <= |s|
        && AllIn(s[..n], ps[0].cls) && Matches(ps[1..], s[n..]);
      MatchBounds(ps[1..], s[n..]);
      forall k | 0 <= k < |s| ensures exists p :: p in ps && InClass(s[k], p.cls) {
        if k < n {
          assert s[..n][k] == s[k];
          assert ps[0] in ps;
        } else {
          assert s[n..][k - n] == s[k];
          var p :| p in ps[1..] && InClass(s[n..][k - n], p.cls);
          assert p in ps;
        }
      }
    }
  }

  /** `phone.replace(/\s/g, '')` matched against the phone pattern. */
  predicate IsPhone(phone: string) {
    Matches(PhonePieces, RemoveSpaces(phone))
  }

  /** The shortest and the longest string the phone pattern accepts. */
  lemma PhoneLengths()
    ensures MinLength(PhonePieces) == 3 && MaxLength(PhonePieces) == 24
  {
  }

  /** A character of any class of the pattern that is not white space is a digit or punctuation. */
  lemma ClassShape(c: char, cls: CharClass)
    requires InClass(c, cls) && !IsSpace(c)
    ensures '0' <= c <= '9' || c in {'+', '(', ')', '-', '.'}
  {
  }

  /** An accepted phone number, once its white space is gone, is 3 to 24 characters
      long and made only of digits and the characters `+`, `(`, `)`, `-` and `.`. */
  lemma PhoneShape(phone: string)
    requires IsPhone(phone)
    ensures var p := RemoveSpaces(phone);
      && 3 <= |p| <= 24
      && forall k :: 0 <= k < |p| ==>
           '0' <= p[k] <= '9' || p[k] in {'+', '(', ')', '-', '.'}
  {
    var p := RemoveSpaces(phone);
    MatchBounds(PhonePieces, p);
    PhoneLengths();
    forall k | 0 <= k < |p| ensures '0' <= p[k] <= '9' || p[k] in {'+', '(', ')', '-', '.'} {
      var pc :| pc in PhonePieces && InClass(p[k], pc.cls);
      assert !IsSpace(p[k]);
      ClassShape(p[k], pc.cls);
    }
  }
}
