/** Extended regular expressions (section 9.4 of IEEE Std 1003.1): the part of
    the syntax without intervals, ranges and character classes, and what an
    expression matches. */
module Regex {

  datatype Regex =
    | Empty
    | Lit(c: char)
    | AnyChar
    | OneOf(negated: bool, chars: string)
    | Bol
    | Eol
    | Cat(first: Regex, second: Regex)
    | Alt(left: Regex, right: Regex)
    | Star(body: Regex)

  datatype Parse = Fail | Ok(re: Regex, rest: string)

  predicate IsQuantifier(c: char) {
    c == '*' || c == '+' || c == '?' || c == '{'
  }

  /** Alternatives separated by `|`. */
  function ParseAlt(s: string): (p: Parse)
    ensures p.Ok? ==> |p.rest| <= |s|
    decreases |s|, 3
  {
    match ParseBranch(s)
    case Fail => Fail
    case Ok(left, rest) =>
      if rest != [] && rest[0] == '|' then
        match ParseAlt(rest[1..])
        case Fail => Fail
        case Ok(right, rest2) => Ok(Alt(left, right), rest2)
      else Ok(left, rest)
  }

  /** Pieces one after the other; an empty branch is allowed. */
  function ParseBranch(s: string): (p: Parse)
    ensures p.Ok? ==> |p.rest| <= |s|
    decreases |s|, 2
  {
    if s == [] || s[0] == '|' || s[0] == ')' then Ok(Empty, s)
    else
      match ParsePiece(s)
      case Fail => Fail
      case Ok(a, rest) =>
        match ParseBranch(rest)
        case Fail => Fail
        case Ok(b, rest2) => Ok(Cat(a, b), rest2)
  }

  /** An atom with an optional `*`, `+` or `?`, which an anchor cannot have. */
  function ParsePiece(s: string): (p: Parse)
    requires s != []
    ensures p.Ok? ==> |p.rest| < |s|
    decreases |s|, 1
  {
    match ParseAtom(s)
    case Fail => Fail
    case Ok(a, rest) =>
      if rest == [] || !IsQuantifier(rest[0]) then Ok(a, rest)
      else if a.Bol? || a.Eol? then Fail
      else if rest[0] == '*' then Ok(Star(a), rest[1..])
      else if rest[0] == '+' then Ok(Cat(a, Star(a)), rest[1..])
      else if rest[0] == '?' then Ok(Alt(a, Empty), rest[1..])
      else Fail
  }

  function ParseAtom(s: string): (p: Parse)
    requires s != []
    ensures p.Ok? ==> |p.rest| < |s|
    decreases |s|, 0
  {
    if s[0] == '(' then
      match ParseAlt(s[1..])
      case Fail => Fail
      case Ok(r, rest) => if rest != [] && rest[0] == ')' then Ok(r, rest[1..]) else Fail
    else if s[0] == '[' then ParseBracket(s)
    else if s[0] == '\\' then (if |s| > 1 then Ok(Lit(s[1]), s[2..]) else Fail)
    else if s[0] == '.' then Ok(AnyChar, s[1..])
    else if s[0] == '^' then Ok(Bol, s[1..])
    else if s[0] == '$' then Ok(Eol, s[1..])
    else if IsQuantifier(s[0]) || s[0] == ')' || s[0] == '|' then Fail
    else Ok(Lit(s[0]), s[1..])
  }

  /** A bracket expression listing single characters. */
  function ParseBracket(s: string): (p: Parse)
    requires s != []
    ensures p.Ok? ==> |p.rest| < |s|
  {
    var negated := |s| > 1 && s[1] == '^';
    var start := if negated then 2 else 1;
    if |s| <= start then Fail
    else
      var end := Closing(s, start + 1);
      if end == |s| || '-' in s[start..end] || '[' in s[start..end] then Fail
      else Ok(OneOf(negated, s[start..end]), s[end + 1..])
  }

  /** The next `]` at or after a position, or the end of the string. */
  function Closing(s: string, k: nat): (e: nat)
    requires k <= |s|
    ensures k <= e <= |s|
    decreases |s| - k
  {
    if k == |s| || s[k] == ']' then k else Closing(s, k + 1)
  }

  /** `r` matches the part of `s` from `i` to `j`. */
  ghost predicate Matches(r: Regex, s: string, i: nat, j: nat)
    requires i <= j <= |s|
    decreases r, j - i
  {
    match r
    case Empty => i == j
    case Lit(c) => j == i + 1 && s[i] == c
    case AnyChar => j == i + 1
    case OneOf(negated, chars) => j == i + 1 && (s[i] in chars) != negated
    case Bol => i == j == 0
    case Eol => i == j == |s|
    case Cat(a, b) => exists k: nat :: i <= k <= j && Matches(a, s, i, k) && Matches(b, s, k, j)
    case Alt(a, b) => Matches(a, s, i, j) || Matches(b, s, i, j)
    case Star(a) => i == j || exists k: nat :: i < k <= j && Matches(a, s, i, k) && Matches(r, s, k, j)
  }

  /** `regexec`: the expression compiles and matches somewhere in the name. */
  ghost predicate Accepts(regex: string, s: string) {
    var p := ParseAlt(regex);
    && p.Ok? && p.rest == []
    && exists i: nat, j: nat :: i <= j <= |s| && Matches(p.re, s, i, j)
  }

  lemma {:induction false} StarAny(s: string, i: nat, j: nat)
    requires i <= j <= |s|
    ensures Matches(Star(AnyChar), s, i, j)
    decreases j - i
  {
    if i < j {
      StarAny(s, i + 1, j);
      assert Matches(AnyChar, s, i, i + 1);
    }
  }

  lemma {:induction false} StarNone(s: string, i: nat, j: nat, chars: string)
    requires i <= j <= |s|
    ensures Matches(Star(OneOf(true, chars)), s, i, j) <==> forall k :: i <= k < j ==> s[k] !in chars
    decreases j - i
  {
    if i < j {
      StarNone(s, i + 1, j, chars);
      var a := OneOf(true, chars);
      assert Matches(a, s, i, i + 1) <==> s[i] !in chars;
      if Matches(Star(a), s, i, j) {
        StarUnfold(a, s, i, j);
      }
    }
  }

  lemma StarUnfold(a: Regex, s: string, i: nat, j: nat)
    requires i < j <= |s| && Matches(Star(a), s, i, j)
    ensures exists k: nat :: i < k <= j && Matches(a, s, i, k) && Matches(Star(a), s, k, j)
  {
  }

  lemma CatSplit(a: Regex, b: Regex, s: string, i: nat, j: nat) returns (k: nat)
    requires i <= j <= |s| && Matches(Cat(a, b), s, i, j)
    ensures i <= k <= j && Matches(a, s, i, k) && Matches(b, s, k, j)
  {
    var r := Cat(a, b);
    assert exists m: nat :: i <= m <= j && Matches(r.first, s, i, m) && Matches(r.second, s, m, j);
    k :| i <= k <= j && Matches(r.first, s, i, k) && Matches(r.second, s, k, j);
  }

  lemma CatJoin(a: Regex, b: Regex, s: string, i: nat, k: nat, j: nat)
    requires i <= k <= j <= |s| && Matches(a, s, i, k) && Matches(b, s, k, j)
    ensures Matches(Cat(a, b), s, i, j)
  {
  }
}
