/**
 * The account-identifier check of the wallet: `isValidPhone`, a regular
 * expression anchored at both ends,
 *
 *   optional '+', 1-3 digits, optional separator, optional '(', 2-3 digits,
 *   optional ')', optional separator, 4-5 digits, optional separator, 4 digits
 *
 * where a separator is '-' or a whitespace character. The expression has no
 * alternation and no nested groups, so it is a sequence of pieces, each a
 * character class repeated between a lower and an upper bound; a string
 * matches when it splits into consecutive runs, one per piece.
 */
module PhoneFormat {

  datatype CharClass = PlusSign | Digit | Separator | OpenParen | CloseParen

  /** The characters JavaScript's `\s` class matches. */
  predicate IsWhitespace(c: char) {
    c == '\t' || c == '\n' || c == '\U{000B}' || c == '\U{000C}' || c == '\r' || c == ' '
    || c == '\U{00A0}' || c == '\U{1680}' || ('\U{2000}' <= c <= '\U{200A}')
    || c == '\U{2028}' || c == '\U{2029}' || c == '\U{202F}' || c == '\U{205F}'
    || c == '\U{3000}' || c == '\U{FEFF}'
  }

  predicate InClass(c: char, cls: CharClass) {
    match cls
    case PlusSign => c == '+'
    case Digit => '0' <= c <= '9'      // JavaScript's `\d` is ASCII only
    case Separator => c == '-' || IsWhitespace(c)
    case OpenParen => c == '('
    case CloseParen => c == ')'
  }

  /** Between `min` and `max` consecutive characters of class `cls`. */
  datatype Piece = Piece(cls: CharClass, min: nat, max: nat)

  const PhonePattern: seq<Piece> := [
    Piece(PlusSign, 0, 1),
    Piece(Digit, 1, 3),
    Piece(Separator, 0, 1),
    Piece(OpenParen, 0, 1),
    Piece(Digit, 2, 3),
    Piece(CloseParen, 0, 1),
    Piece(Separator, 0, 1),
    Piece(Digit, 4, 5),
    Piece(Separator, 0, 1),
    Piece(Digit, 4, 4)
  ]

  predicate AllIn(s: string, cls: CharClass) {
    forall i :: 0 <= i < |s| ==> InClass(s[i], cls)
  }

  /**
   * `s` splits into consecutive runs, one for each of pattern[k..], each run
   * fitting its piece. The order in which run lengths are tried does not
   * matter: the pattern is anchored at both ends, so only whether some split
   * exists decides the answer.
   */
  predicate MatchesFrom(s: string, pattern: seq<Piece>, k: nat)
    requires k <= |pattern|
    decreases |pattern| - k, 1, 0
  {
    if k == |pattern| then s == [] else MatchesRun(s, pattern, k, pattern[k].min)
  }

  /** Some run of piece k that is at least `n` long, followed by a match of pattern[k + 1..], makes up `s`. */
  predicate MatchesRun(s: string, pattern: seq<Piece>, k: nat, n: nat)
    requires k < |pattern|
    decreases |pattern| - k, 0, pattern[k].max - n
  {
    n <= pattern[k].max && n <= |s|
    && ((AllIn(s[..n], pattern[k].cls) && MatchesFrom(s[n..], pattern, k + 1))
        || MatchesRun(s, pattern, k, n + 1))
  }

  /** A run of exactly `n` characters is one of those MatchesRun(s, pattern, k, m) looks for. */
  lemma {:induction false} RunFrom(s: string, pattern: seq<Piece>, k: nat, m: nat, n: nat)
    requires k < |pattern| && m <= n <= pattern[k].max && n <= |s|
    requires AllIn(s[..n], pattern[k].cls) && MatchesFrom(s[n..], pattern, k + 1)
    ensures MatchesRun(s, pattern, k, m)
    decreases n - m
  {
    if m < n {
      RunFrom(s, pattern, k, m + 1, n);
    }
  }

  /** The run MatchesRun found: its length and the match of the rest. */
  lemma {:induction false} RunWitness(s: string, pattern: seq<Piece>, k: nat, m: nat) returns (n: nat)
    requires k < |pattern| && MatchesRun(s, pattern, k, m)
    ensures m <= n <= pattern[k].max && n <= |s|
    ensures AllIn(s[..n], pattern[k].cls) && MatchesFrom(s[n..], pattern, k + 1)
    decreases pattern[k].max - m
  {
    if AllIn(s[..m], pattern[k].cls) && MatchesFrom(s[m..], pattern, k + 1) {
      n := m;
    } else {
      n := RunWitness(s, pattern, k, m + 1);
    }
  }

  /**
   * `isValidPhone`: the whole string matches the phone pattern. Every
   * accepted identifier carries 11 to 15 digits.
   */
  predicate IsValidPhone(phone: string)
    ensures IsValidPhone(phone) ==> 11 <= CountDigits(phone) <= 15
  {
    var matches := MatchesFrom(phone, PhonePattern, 0);
    assert matches ==> 11 <= CountDigits(phone) <= 15 by {
      if matches {
        assert DigitsMin(PhonePattern, 0) == 11;
        assert DigitsMax(PhonePattern, 0) == 15;
        MatchDigitBounds(phone, PhonePattern, 0);
      }
    }
    matches
  }

  function CountDigits(s: string): nat {
    if s == [] then 0 else (if InClass(s[0], Digit) then 1 else 0) + CountDigits(s[1..])
  }

  /** The fewest digits pattern[k..] accepts. */
  function DigitsMin(pattern: seq<Piece>, k: nat): nat
    requires k <= |pattern|
    decreases |pattern| - k
  {
    if k == |pattern| then 0
    else (if pattern[k].cls == Digit then pattern[k].min else 0) + DigitsMin(pattern, k + 1)
  }

  /** The most digits pattern[k..] accepts. */
  function DigitsMax(pattern: seq<Piece>, k: nat): nat
    requires k <= |pattern|
    decreases |pattern| - k
  {
    if k == |pattern| then 0
    else (if pattern[k].cls == Digit then pattern[k].max else 0) + DigitsMax(pattern, k + 1)
  }

  lemma {:induction false} CountDigitsAppend(a: string, b: string)
    ensures CountDigits(a + b) == CountDigits(a) + CountDigits(b)
  {
    if a == [] {
      assert a + b == b;
    } else {
      assert (a + b)[1..] == a[1..] + b;
      CountDigitsAppend(a[1..], b);
    }
  }

  /** A run of one class holds only digits (if the class is Digit) or none at all. */
  lemma {:induction false} CountDigitsRun(s: string, cls: CharClass)
    requires AllIn(s, cls)
    ensures CountDigits(s) == if cls == Digit then |s| else 0
  {
    if s != [] {
      assert AllIn(s[1..], cls) by {
        forall i | 0 <= i < |s[1..]| ensures InClass(s[1..][i], cls) {
          assert s[1..][i] == s[i + 1];
        }
      }
      CountDigitsRun(s[1..], cls);
    }
  }

  /** Every string matching pattern[k..] has between DigitsMin and DigitsMax digits. */
  lemma {:induction false} MatchDigitBounds(s: string, pattern: seq<Piece>, k: nat)
    requires k <= |pattern| && MatchesFrom(s, pattern, k)
    ensures DigitsMin(pattern, k) <= CountDigits(s) <= DigitsMax(pattern, k)
    decreases |pattern| - k
  {
    if k < |pattern| {
      var n := RunWitness(s, pattern, k, pattern[k].min);
      assert s == s[..n] + s[n..];
      CountDigitsAppend(s[..n], s[n..]);
      CountDigitsRun(s[..n], pattern[k].cls);
      MatchDigitBounds(s[n..], pattern, k + 1);
    }
  }

  /** A piece whose lower bound is 0 may take no characters at all. */
  lemma SkipPiece(s: string, pattern: seq<Piece>, k: nat)
    requires k < |pattern| && pattern[k].min == 0 && MatchesFrom(s, pattern, k + 1)
    ensures MatchesFrom(s, pattern, k)
  {
    assert s[..0] == [] && s[0..] == s;
    RunFrom(s, pattern, k, 0, 0);
  }

  /** A run `a` that fits piece k, followed by a match `b` of the rest, matches from k. */
  lemma TakePiece(a: string, b: string, pattern: seq<Piece>, k: nat)
    requires k < |pattern| && pattern[k].min <= |a| <= pattern[k].max && AllIn(a, pattern[k].cls)
    requires MatchesFrom(b, pattern, k + 1)
    ensures MatchesFrom(a + b, pattern, k)
  {
    assert (a + b)[..|a|] == a && (a + b)[|a|..] == b;
    RunFrom(a + b, pattern, k, pattern[k].min, |a|);
  }

  lemma TailGroups(p: seq<Piece>, prefix: string, line: string)
    requires p == PhonePattern
    requires AllIn(prefix, Digit) && 4 <= |prefix| <= 5
    requires AllIn(line, Digit) && |line| == 4
    ensures MatchesFrom(prefix + line, p, 5)
  {
    assert p[9] == Piece(Digit, 4, 4) && p[8].min == 0 && p[7] == Piece(Digit, 4, 5);
    assert p[6].min == 0 && p[5].min == 0;
    assert MatchesFrom([], p, 10);
    TakePiece(line, [], p, 9);
    assert line + [] == line;
    SkipPiece(line, p, 8);
    TakePiece(prefix, line, p, 7);
    SkipPiece(prefix + line, p, 6);
    SkipPiece(prefix + line, p, 5);
  }

  lemma AreaGroup(p: seq<Piece>, area: string, rest: string)
    requires p == PhonePattern
    requires AllIn(area, Digit) && 2 <= |area| <= 3
    requires MatchesFrom(rest, p, 5)
    ensures MatchesFrom(area + rest, p, 2)
  {
    assert p[4] == Piece(Digit, 2, 3) && p[3].min == 0 && p[2].min == 0;
    TakePiece(area, rest, p, 4);
    SkipPiece(area + rest, p, 3);
    SkipPiece(area + rest, p, 2);
  }

  lemma CountryGroup(p: seq<Piece>, country: string, rest: string)
    requires p == PhonePattern
    requires AllIn(country, Digit) && 1 <= |country| <= 3
    requires MatchesFrom(rest, p, 2)
    ensures MatchesFrom(country + rest, p, 1)
  {
    assert p[1] == Piece(Digit, 1, 3);
    TakePiece(country, rest, p, 1);
  }

  lemma DigitGroups(p: seq<Piece>, country: string, area: string, prefix: string, line: string)
    requires p == PhonePattern
    requires AllIn(country, Digit) && 1 <= |country| <= 3
    requires AllIn(area, Digit) && 2 <= |area| <= 3
    requires AllIn(prefix, Digit) && 4 <= |prefix| <= 5
    requires AllIn(line, Digit) && |line| == 4
    ensures MatchesFrom(country + (area + (prefix + line)), p, 0)
  {
    TailGroups(p, prefix, line);
    AreaGroup(p, area, prefix + line);
    CountryGroup(p, country, area + (prefix + line));
    assert p[0].min == 0;
    SkipPiece(country + (area + (prefix + line)), p, 0);
  }

  /**
   * Digit groups of the allowed lengths, written one after another with no
   * '+', separator or parenthesis, form an accepted identifier.
   */
  lemma AcceptsDigitGroups(country: string, area: string, prefix: string, line: string)
    requires AllIn(country, Digit) && 1 <= |country| <= 3
    requires AllIn(area, Digit) && 2 <= |area| <= 3
    requires AllIn(prefix, Digit) && 4 <= |prefix| <= 5
    requires AllIn(line, Digit) && |line| == 4
    ensures IsValidPhone(country + area + prefix + line)
  {
    DigitGroups(PhonePattern, country, area, prefix, line);
    assert country + area + prefix + line == country + (area + (prefix + line));
  }

  /** The administrator number the chat front end is configured with is accepted. */
  lemma AcceptsSample()
    ensures IsValidPhone("556784229414")
  {
    AcceptsDigitGroups("55", "67", "8422", "9414");
    assert "55" + "67" + "8422" + "9414" == "556784229414";
  }

  /** A string with no digit is rejected. */
  lemma RejectsLetters()
    ensures !IsValidPhone("abc")
  {
    assert CountDigits("abc") == 0;
  }

  /** A short international number with eight digits is rejected. */
  lemma RejectsEightDigits()
    ensures !IsValidPhone("+1 555 0100")
  {
    assert CountDigits("+1 555 0100") == 8;
  }
}
