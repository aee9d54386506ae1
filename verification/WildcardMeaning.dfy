/** What a wildcard means, and that its translation means the same. */
module WildcardMeaning {
  import opened Regex
  import opened Wildcards

  /** `**` and a separator; `**`; `*`; `?`; a separator; a set of characters;
      any other character. */
  datatype Token =
    | DirPrefix
    | Anything
    | NoSeparator
    | OneChar
    | Separator
    | Set(negated: bool, members: string)
    | Literal(c: char)

  function FirstToken(p: string): (t: Token)
    requires p != []
  {
    if p[0] == '*' && |p| > 1 && p[1] == '*' then
      if |p| > 2 && IsSeparator(p[2]) then DirPrefix else Anything
    else if p[0] == '*' then NoSeparator
    else if p[0] == '?' then OneChar
    else if IsSeparator(p[0]) then Separator
    else if p[0] == '[' then SetToken(p[1..Closing(p, 1)])
    else Literal(p[0])
  }

  function SetToken(text: string): (t: Token) {
    if text != "" && text[0] == '^' then Set(true, text[1..]) else Set(false, text)
  }

  function Tokens(p: string): (r: seq<Token>) {
    if p == [] then [] else [FirstToken(p)] + Tokens(p[Width(p)..])
  }

  /** What one token may stand for. */
  predicate Stands(t: Token, x: string) {
    match t
    case DirPrefix => x == "" || x[|x|-1] == '/'
    case Anything => true
    case NoSeparator => '/' !in x
    case OneChar => |x| == 1
    case Separator => x == "/"
    case Set(negated, members) => |x| == 1 && (x[0] in members) != negated
    case Literal(c) => x == [c]
  }

  /** A name matches when it can be cut into what the tokens stand for. */
  ghost predicate WildMatch(ts: seq<Token>, s: string) {
    if ts == [] then s == ""
    else exists k: nat :: k <= |s| && Stands(ts[0], s[..k]) && WildMatch(ts[1..], s[k..])
  }

  lemma WildSplit(ts: seq<Token>, s: string) returns (k: nat)
    requires ts != [] && WildMatch(ts, s)
    ensures k <= |s| && Stands(ts[0], s[..k]) && WildMatch(ts[1..], s[k..])
  {
    k :| k <= |s| && Stands(ts[0], s[..k]) && WildMatch(ts[1..], s[k..]);
  }

  lemma WildJoin(ts: seq<Token>, s: string, k: nat)
    requires ts != [] && k <= |s| && Stands(ts[0], s[..k]) && WildMatch(ts[1..], s[k..])
    ensures WildMatch(ts, s)
  {
  }

  lemma WildEnd(s: string)
    ensures WildMatch([], s) <==> s == ""
  {
  }

  // ----------------------------------------- the meaning, read off the text

  /** What a pattern means, character by character: `**` and a separator for
      nothing or any directories; `**` for anything; `*` for anything without a
      separator; `?` for one character; a set, up to its bracket or the end, for
      one of its members or, after `^`, one of the others. */
  ghost predicate Means(p: string, s: string)
    decreases |p|
  {
    if p == "" then s == ""
    else if |p| >= 3 && p[0] == '*' && p[1] == '*' && (p[2] == '/' || p[2] == '\\') then
      Means(p[3..], s) || exists k :: 0 < k <= |s| && s[k - 1] == '/' && Means(p[3..], s[k..])
    else if |p| >= 2 && p[0] == '*' && p[1] == '*' then
      exists k :: 0 <= k <= |s| && Means(p[2..], s[k..])
    else if p[0] == '*' then
      exists k :: 0 <= k <= |s| && '/' !in s[..k] && Means(p[1..], s[k..])
    else if p[0] == '[' then
      exists e :: 1 <= e <= |p| && ']' !in p[1..e] && MeansSet(p, e, s)
    else
      && s != "" && Means(p[1..], s[1..])
      && (p[0] == '?' || s[0] == if p[0] == '/' || p[0] == '\\' then '/' else p[0])
  }

  /** The set ends at `e`. */
  ghost predicate MeansSet(p: string, e: nat, s: string)
    requires 1 <= e <= |p|
    decreases |p|, 0
  {
    && s != "" && (if e > 1 && p[1] == '^' then s[0] !in p[2..e] else s[0] in p[1..e])
    && if e == |p| then Means("", s[1..]) else p[e] == ']' && Means(p[e + 1..], s[1..])
  }

  lemma {:induction false} ClosingIs(s: string, k: nat, e: nat)
    requires k <= e <= |s| && (forall i :: k <= i < e ==> s[i] != ']') && (e < |s| ==> s[e] == ']')
    ensures Closing(s, k) == e
    decreases e - k
  {
    if k < e {
      ClosingIs(s, k + 1, e);
    }
  }

  lemma {:induction false} ClosingFree(p: string, k: nat)
    requires k <= |p|
    ensures ']' !in p[k..Closing(p, k)] && (Closing(p, k) < |p| ==> p[Closing(p, k)] == ']')
    decreases |p| - k
  {
    if k < |p| && p[k] != ']' {
      ClosingFree(p, k + 1);
      assert p[k..Closing(p, k)] == [p[k]] + p[k + 1..Closing(p, k)];
    }
  }

  /** The tokens of a pattern that starts with stars. */
  lemma StarTokens(q: string)
    ensures Tokens("**/" + q) == [DirPrefix] + Tokens(q) && Tokens("**\\" + q) == [DirPrefix] + Tokens(q)
    ensures (q == "" || (q[0] != '/' && q[0] != '\\')) ==> Tokens("**" + q) == [Anything] + Tokens(q)
    ensures (q == "" || q[0] != '*') ==> Tokens("*" + q) == [NoSeparator] + Tokens(q)
  {
    assert ("**/" + q)[3..] == q && ("**\\" + q)[3..] == q && ("**" + q)[2..] == q && ("*" + q)[1..] == q;
  }

  lemma Bracketed(inner: string, q: string)
    ensures var s := "[" + inner + "]" + q;
            && |s| == |inner| + 2 + |q| && s[0] == '[' && s[|inner| + 1] == ']'
            && s[1..|inner| + 1] == inner && s[|inner| + 2..] == q
            && forall i :: 0 <= i < |inner| ==> s[i + 1] == inner[i]
  {
  }

  /** Sets reach to the first bracket, or without one to the end. */
  lemma SetTokens(negated: bool, members: string, q: string)
    requires ']' !in members && (!negated ==> members == "" || members[0] != '^')
    ensures var text := if negated then "[^" + members else "[" + members;
            && Tokens(text + "]" + q) == [Set(negated, members)] + Tokens(q)
            && Tokens(text) == [Set(negated, members)]
  {
    hide Tokens, Closing, Width;
    var inner := if negated then "^" + members else members;
    var open, closed := "[" + inner, "[" + inner + "]" + q;
    var e := |open|;
    Bracketed(inner, q);
    assert open[1..e] == inner && open[e..] == "";
    assert ']' !in inner;
    assert forall i :: 1 <= i < e ==> open[i] == inner[i - 1] && closed[i] == inner[i - 1];
    ClosingIs(open, 1, e);
    ClosingIs(closed, 1, e);
    assert SetToken(inner) == Set(negated, members) by {
      assert negated ==> inner[1..] == members;
    }
    TokensEmpty();
    assert (if negated then "[^" + members else "[" + members) == open;
    FirstSet(open);
    FirstSet(closed);
  }

  lemma TokensStep(p: string)
    requires p != ""
    ensures Tokens(p) == [FirstToken(p)] + Tokens(p[Width(p)..])
  {
  }

  lemma FirstSet(p: string)
    requires p != "" && p[0] == '['
    ensures Tokens(p) == [SetToken(p[1..Closing(p, 1)])] + Tokens(p[if Closing(p, 1) < |p| then Closing(p, 1) + 1 else Closing(p, 1)..])
  {
    hide Closing, SetToken, Tokens;
    assert FirstToken(p) == SetToken(p[1..Closing(p, 1)]);
    TokensStep(p);
    assert Width(p) == if Closing(p, 1) < |p| then Closing(p, 1) + 1 else Closing(p, 1);
  }

  lemma CharacterTokens(c: char, q: string)
    requires c != '*' && c != '['
    ensures Tokens([c] + q) == [if c == '?' then OneChar else if c == '/' || c == '\\' then Separator else Literal(c)] + Tokens(q)
  {
    assert ([c] + q)[1..] == q;
  }

  // ------------------------------------------ that is what the tokens mean

  ghost predicate CutAt(t: Token, ts: seq<Token>, s: string, k: nat) {
    k <= |s| && Stands(t, s[..k]) && WildMatch(ts, s[k..])
  }

  lemma WildCons(t: Token, ts: seq<Token>, s: string)
    ensures WildMatch([t] + ts, s) <==> exists k: nat :: CutAt(t, ts, s, k)
  {
    assert ([t] + ts)[1..] == ts;
    if WildMatch([t] + ts, s) {
      var k := WildSplit([t] + ts, s);
      assert CutAt(t, ts, s, k);
    }
    if k: nat :| CutAt(t, ts, s, k) {
      WildJoin([t] + ts, s, k);
    }
  }

  lemma OneCharacter(t: Token, ts: seq<Token>, s: string)
    requires forall x: string :: Stands(t, x) ==> |x| == 1
    ensures WildMatch([t] + ts, s) <==> s != "" && Stands(t, [s[0]]) && WildMatch(ts, s[1..])
  {
    WildCons(t, ts, s);
    if k: nat :| CutAt(t, ts, s, k) {
      assert |s[..k]| == 1;
      assert s[..1] == [s[0]];
    }
    if s != "" && Stands(t, [s[0]]) && WildMatch(ts, s[1..]) {
      assert s[..1] == [s[0]];
      assert CutAt(t, ts, s, 1);
    }
  }

  /** The tokens of a pattern match the names that the pattern means. */
  lemma {:induction false} TokensMean(p: string, s: string)
    ensures WildMatch(Tokens(p), s) <==> Means(p, s)
    decreases |p|
  {
    if p == "" {
      WildEnd(s);
    } else if p[0] == '*' {
      StarsMean(p, s);
    } else if p[0] == '[' {
      SetMeans(p, s);
    } else {
      hide WildMatch, Tokens;
      assert p == [p[0]] + p[1..];
      CharacterTokens(p[0], p[1..]);
      var t := if p[0] == '?' then OneChar else if p[0] == '/' || p[0] == '\\' then Separator else Literal(p[0]);
      OneCharacter(t, Tokens(p[1..]), s);
      if s != "" {
        TokensMean(p[1..], s[1..]);
      }
    }
  }

  lemma {:induction false} StarsMean(p: string, s: string)
    requires p != "" && p[0] == '*'
    ensures WildMatch(Tokens(p), s) <==> Means(p, s)
    decreases |p|, 0
  {
    hide WildMatch, Tokens, Means, Stands;
    var n := Stars(p);
    var t := if n == 3 then DirPrefix else if n == 2 then Anything else NoSeparator;
    var q := p[n..];
    assert p == p[..n] + q;
    assert p[..n] == if n == 3 then (if p[2] == '/' then "**/" else "**\\") else if n == 2 then "**" else "*";
    StarTokens(q);
    WildCons(t, Tokens(q), s);
    StarredMeans(p, s, t);
    forall k: nat ensures CutAt(t, Tokens(q), s, k) <==> Skips(t, q, s, k) {
      if k <= |s| {
        TokensMean(q, s[k..]);
      }
    }
  }

  function Stars(p: string): (n: nat)
    requires p != "" && p[0] == '*'
    ensures 1 <= n <= |p|
  {
    if |p| >= 3 && p[1] == '*' && (p[2] == '/' || p[2] == '\\') then 3 else if |p| >= 2 && p[1] == '*' then 2 else 1
  }

  ghost predicate Skips(t: Token, q: string, s: string, k: nat) {
    k <= |s| && Stands(t, s[..k]) && Means(q, s[k..])
  }

  lemma StarredMeans(p: string, s: string, t: Token)
    requires p != "" && p[0] == '*'
    requires t == if Stars(p) == 3 then DirPrefix else if Stars(p) == 2 then Anything else NoSeparator
    ensures Means(p, s) <==> exists k: nat :: Skips(t, p[Stars(p)..], s, k)
  {
    var q := p[Stars(p)..];
    if Means(p, s) {
      var k := Skipped(p, s);
      assert Skips(t, q, s, k);
    }
    if k: nat :| Skips(t, q, s, k) {
      if t.DirPrefix? {
        assert s[0..] == s;
        assert k > 0 ==> s[..k][k - 1] == s[k - 1];
      }
    }
  }

  lemma Skipped(p: string, s: string) returns (k: nat)
    requires p != "" && p[0] == '*' && Means(p, s)
    ensures k <= |s| && Means(p[Stars(p)..], s[k..])
    ensures Stars(p) == 3 ==> k == 0 || s[..k][k - 1] == '/'
    ensures Stars(p) == 1 ==> '/' !in s[..k]
  {
    if Stars(p) == 3 {
      if Means(p[3..], s) {
        k := 0;
        assert s[0..] == s;
      } else {
        k :| 0 < k <= |s| && s[k - 1] == '/' && Means(p[3..], s[k..]);
      }
    } else if Stars(p) == 2 {
      k :| k <= |s| && Means(p[2..], s[k..]);
    } else {
      k :| k <= |s| && '/' !in s[..k] && Means(p[1..], s[k..]);
    }
  }

  lemma {:induction false} SetMeans(p: string, s: string)
    requires p != "" && p[0] == '['
    ensures WildMatch(Tokens(p), s) <==> Means(p, s)
    decreases |p|, 0
  {
    hide WildMatch, Tokens, Stands;
    var e := Closing(p, 1);
    var q := if e < |p| then p[e + 1..] else "";
    var t := SetTokenOf(p, e);
    OneCharacter(t, Tokens(q), s);
    if s != "" {
      TokensMean(q, s[1..]);
    }
    EndsAt(p, e, s);
  }

  /** The set token of a pattern, and what it stands for. */
  lemma SetTokenOf(p: string, e: nat) returns (t: Token)
    requires p != "" && p[0] == '[' && e == Closing(p, 1)
    ensures Tokens(p) == [t] + Tokens(if e < |p| then p[e + 1..] else "")
    ensures forall x :: Stands(t, x) <==> |x| == 1 && if e > 1 && p[1] == '^' then x[0] !in p[2..e] else x[0] in p[1..e]
    ensures e < |p| ==> p[e] == ']'
  {
    hide Tokens, Closing, Width;
    ClosingFree(p, 1);
    FirstSet(p);
    t := SetToken(p[1..e]);
    assert e == |p| ==> p[e..] == "";
    assert e > 1 ==> p[1..e][0] == p[1] && p[1..e][1..] == p[2..e];
  }

  /** A set has one end. */
  lemma EndsAt(p: string, e: nat, s: string)
    requires p != "" && p[0] == '[' && e == Closing(p, 1)
    ensures Means(p, s) <==> MeansSet(p, e, s)
  {
    ClosingFree(p, 1);
    if f :| 1 <= f <= |p| && ']' !in p[1..f] && MeansSet(p, f, s) {
      assert forall i :: 1 <= i < f ==> p[i] in p[1..f];
      ClosingIs(p, 1, f);
    }
  }

  // ------------------------------------------- the emitted text, per token

  function TokenText(t: Token): (r: string) {
    match t
    case DirPrefix => "(.*/|())"
    case Anything => ".*"
    case NoSeparator => "[^/]*"
    case OneChar => "."
    case Separator => "/"
    case Set(negated, members) => "[" + SetText(negated, members) + "]"
    case Literal(c) => if IsSpecial(c) then ['\\', c] else [c]
  }

  function SetText(negated: bool, members: string): (text: string) {
    if negated then "^" + members else members
  }

  function TokenRegex(t: Token): (r: Regex) {
    match t
    case DirPrefix => Alt(Cat(Star(AnyChar), Cat(Lit('/'), Empty)), Cat(Empty, Empty))
    case Anything => Star(AnyChar)
    case NoSeparator => Star(OneOf(true, "/"))
    case OneChar => AnyChar
    case Separator => Lit('/')
    case Set(negated, members) => OneOf(negated, members)
    case Literal(c) => Lit(c)
  }

  /** Sets that list their members one by one, and match something. */
  ghost predicate PlainSet(negated: bool, members: string) {
    && members != "" && '-' !in members && '[' !in members && ']' !in members
    && (if negated then exists c: char :: c !in members else members[0] != '^')
  }

  /** Tokens that the translation leaves to the expression compiler as plain
      characters, though there they have a meaning. */
  predicate IsOperator(t: Token) {
    t == Literal('+') || t == Literal('|')
  }

  /** What the first step of a pattern can yield, intervals and complicated
      sets apart. */
  ghost predicate Emittable(t: Token) {
    match t
    case Set(negated, members) => PlainSet(negated, members)
    case Literal(c) => c != '[' && c != '{' && c != '*' && c != '?' && !IsSeparator(c)
    case _ => true
  }

  ghost predicate Writable(t: Token) {
    Emittable(t) && !IsOperator(t)
  }

  /** Sets are plain, and `{` only occurs inside them. */
  ghost predicate Plain(p: string) {
    forall t :: t in Tokens(p) ==> Emittable(t)
  }

  /** `+` and `|` only occur inside sets. */
  predicate Unambiguous(p: string) {
    forall t :: t in Tokens(p) ==> !IsOperator(t)
  }

  function Text(ts: seq<Token>): (r: string) {
    if ts == [] then "" else TokenText(ts[0]) + Text(ts[1..])
  }

  /** The expression for the tokens up to and including the end anchor. */
  function Whole(ts: seq<Token>): (r: Regex) {
    if ts == [] then Cat(Eol, Empty) else Cat(TokenRegex(ts[0]), Whole(ts[1..]))
  }

  lemma {:induction false} EmitIsText(p: string)
    ensures Emit(p) == Text(Tokens(p))
  {
    if p != [] {
      EmitIsText(p[Width(p)..]);
      StepIsText(p);
      assert ([FirstToken(p)] + Tokens(p[Width(p)..]))[1..] == Tokens(p[Width(p)..]);
    }
  }

  lemma StepIsText(p: string)
    requires p != []
    ensures StepText(p) == TokenText(FirstToken(p))
  {
    if p[0] == '[' {
      var text := p[1..Closing(p, 1)];
      assert text != "" ==> text == [text[0]] + text[1..];
    }
  }

  // --------------------------------------------------------------- parsing

  /** The second alternative: an empty group, up to the closing parenthesis. */
  lemma ParseEmptyGroup(rest: string)
    ensures ParseAlt("())" + rest) == Ok(Cat(Empty, Empty), ")" + rest)
  {
    var s5, s6, s7 := "())" + rest, "))" + rest, ")" + rest;
    assert s5[1..] == s6 && s6[1..] == s7;
    assert ParseAlt(s6) == Ok(Empty, s6);
    assert ParseAtom(s5) == Ok(Empty, s7);
    assert ParsePiece(s5) == Ok(Empty, s7);
    assert ParseBranch(s7) == Ok(Empty, s7);
  }

  /** The first alternative, up to the bar. */
  lemma ParseDirBranch(rest: string)
    ensures ParseBranch(".*/|())" + rest) == Ok(Cat(Star(AnyChar), Cat(Lit('/'), Empty)), "|())" + rest)
  {
    var s1, s2, s3, s4 := ".*/|())" + rest, "*/|())" + rest, "/|())" + rest, "|())" + rest;
    assert s1[1..] == s2 && s2[1..] == s3 && s3[1..] == s4;
    assert ParseAtom(s1) == Ok(AnyChar, s2);
    assert ParsePiece(s1) == Ok(Star(AnyChar), s3);
    assert ParsePiece(s3) == Ok(Lit('/'), s4);
    assert ParseBranch(s4) == Ok(Empty, s4);
    assert ParseBranch(s3) == Ok(Cat(Lit('/'), Empty), s4);
  }

  lemma ParseDirPrefix(rest: string)
    ensures ParseAtom("(.*/|())" + rest) == Ok(TokenRegex(DirPrefix), rest)
  {
    hide ParseBranch;
    var s0, s1, s4, s5, s7 := "(.*/|())" + rest, ".*/|())" + rest, "|())" + rest, "())" + rest, ")" + rest;
    assert s0[1..] == s1 && s4[1..] == s5 && s7[1..] == rest;
    ParseDirBranch(rest);
    ParseEmptyGroup(rest);
    assert ParseAlt(s1) == Ok(TokenRegex(DirPrefix), s7);
    assert ParseAtom(s0) == Ok(TokenRegex(DirPrefix), rest);
  }

  lemma ParseNoSeparator(rest: string)
    ensures ParsePiece("[^/]*" + rest) == Ok(TokenRegex(NoSeparator), rest)
  {
    var s := "[^/]*" + rest;
    assert s[0] == '[' && s[1] == '^' && s[2] == '/' && s[3] == ']' && s[4] == '*';
    assert Closing(s, 3) == 3;
    assert s[2..3] == "/";
    assert s[4..][1..] == rest;
    assert ParseAtom(s) == Ok(OneOf(true, "/"), s[4..]);
  }

  /** A plain set is a bracket expression with the same members. */
  lemma ParseSet(negated: bool, members: string, rest: string)
    requires PlainSet(negated, members)
    ensures ParseAtom("[" + SetText(negated, members) + "]" + rest) == Ok(OneOf(negated, members), rest)
  {
    var s := "[" + SetText(negated, members) + "]" + rest;
    var inner := SetText(negated, members);
    Bracketed(inner, rest);
    var start := if negated then 2 else 1;
    var end := start + |members|;
    assert end == |inner| + 1 && s[1..end][start - 1..] == s[start..end];
    assert inner[start - 1..] == members;
    assert s[start..end] == members && s[end] == ']' && s[end + 1..] == rest;
    forall i | start <= i < end ensures s[i] != ']' {
      assert s[i] == members[i - start];
    }
    ClosingIs(s, start + 1, end);
  }

  /** Tokens whose expression ends in a star already. */
  predicate IsStarred(t: Token) {
    t.Anything? || t.NoSeparator?
  }

  lemma ParseTokenAtom(t: Token, rest: string)
    requires Writable(t) && !IsStarred(t)
    ensures ParseAtom(TokenText(t) + rest) == Ok(TokenRegex(t), rest)
  {
    match t
    case DirPrefix =>
      ParseDirPrefix(rest);
    case Set(negated, members) =>
      ParseSet(negated, members, rest);
    case OneChar =>
      assert ("." + rest)[1..] == rest;
    case Separator =>
      assert ("/" + rest)[1..] == rest;
    case Literal(c) =>
      if IsSpecial(c) {
        assert (['\\', c] + rest)[2..] == rest;
      } else {
        assert ([c] + rest)[1..] == rest;
      }
  }

  lemma ParseStarred(t: Token, rest: string)
    requires IsStarred(t)
    ensures ParsePiece(TokenText(t) + rest) == Ok(TokenRegex(t), rest)
  {
    if t.NoSeparator? {
      ParseNoSeparator(rest);
    } else {
      var s := ".*" + rest;
      assert s[1..] == "*" + rest && s[1..][1..] == rest;
      assert ParseAtom(s) == Ok(AnyChar, s[1..]);
    }
  }

  lemma TokenStart(t: Token, rest: string)
    requires Writable(t)
    ensures var c := (TokenText(t) + rest)[0]; !IsQuantifier(c) && c != '|' && c != ')'
  {
  }

  lemma ParseToken(t: Token, rest: string)
    requires Writable(t) && rest != [] && !IsQuantifier(rest[0])
    ensures ParsePiece(TokenText(t) + rest) == Ok(TokenRegex(t), rest)
  {
    if IsStarred(t) {
      ParseStarred(t, rest);
    } else {
      ParseTokenAtom(t, rest);
    }
  }

  lemma {:induction false} ParseText(ts: seq<Token>)
    requires forall t :: t in ts ==> Writable(t)
    ensures ParseBranch(Text(ts) + "$") == Ok(Whole(ts), "")
    ensures var c := (Text(ts) + "$")[0]; !IsQuantifier(c) && c != '|' && c != ')'
  {
    if ts == [] {
      assert "" + "$" == "$" && "$"[1..] == "";
      assert ParsePiece("$") == Ok(Eol, "");
      assert ParseBranch("") == Ok(Empty, "");
    } else {
      ParseText(ts[1..]);
      var rest := Text(ts[1..]) + "$";
      assert Text(ts) + "$" == TokenText(ts[0]) + rest;
      ParseToken(ts[0], rest);
      TokenStart(ts[0], rest);
    }
  }

  // --------------------------------------------------------------- meaning

  lemma DirPrefixMatches(s: string, i: nat, k: nat)
    requires i <= k <= |s|
    ensures Matches(TokenRegex(DirPrefix), s, i, k) <==> Stands(DirPrefix, s[i..k])
  {
    var slash := Cat(Lit('/'), Empty);
    var dir := Cat(Star(AnyChar), slash);
    assert Matches(Cat(Empty, Empty), s, i, k) <==> i == k by {
      if i == k {
        assert Matches(Empty, s, i, i);
      }
    }
    if Matches(dir, s, i, k) {
      var m := CatSplit(Star(AnyChar), slash, s, i, k);
      var n := CatSplit(Lit('/'), Empty, s, m, k);
      assert k == m + 1 && s[m] == '/';
      assert s[i..k][|s[i..k]| - 1] == '/';
    }
    if i < k && s[k - 1] == '/' {
      StarAny(s, i, k - 1);
      assert Matches(Lit('/'), s, k - 1, k) && Matches(Empty, s, k, k);
      CatJoin(Lit('/'), Empty, s, k - 1, k, k);
      CatJoin(Star(AnyChar), slash, s, i, k - 1, k);
    }
  }

  /** A token's expression matches exactly what the token stands for. */
  lemma TokenMatches(t: Token, s: string, i: nat, k: nat)
    requires i <= k <= |s|
    ensures Matches(TokenRegex(t), s, i, k) <==> Stands(t, s[i..k])
  {
    match t
    case DirPrefix => DirPrefixMatches(s, i, k);
    case Anything => StarAny(s, i, k);
    case NoSeparator =>
      StarNone(s, i, k, "/");
      assert forall c :: c in "/" <==> c == '/';
    case OneChar =>
    case Set(negated, members) =>
      if k == i + 1 {
        assert s[i..k][0] == s[i];
      }
    case Separator =>
      if k == i + 1 {
        assert s[i..k] == [s[i]];
      }
    case Literal(c) =>
      if k == i + 1 {
        assert s[i..k] == [s[i]];
      }
  }

  lemma {:induction false} WholeMatches(ts: seq<Token>, s: string, i: nat, j: nat)
    requires i <= j <= |s|
    ensures Matches(Whole(ts), s, i, j) <==> j == |s| && WildMatch(ts, s[i..])
    decreases |ts|
  {
    hide Matches, Stands, TokenRegex, WildMatch;
    if ts == [] {
      EndMatches(s, i, j);
      WildEnd(s[i..]);
    } else {
      if Matches(Whole(ts), s, i, j) {
        var k := CatSplit(TokenRegex(ts[0]), Whole(ts[1..]), s, i, j);
        WholeMatches(ts[1..], s, k, j);
        StandsThen(ts, s, i, k);
      }
      if j == |s| && WildMatch(ts, s[i..]) {
        var k := FirstStands(ts, s, i);
        WholeMatches(ts[1..], s, k, j);
        CatJoin(TokenRegex(ts[0]), Whole(ts[1..]), s, i, k, j);
      }
    }
  }

  lemma StandsThen(ts: seq<Token>, s: string, i: nat, k: nat)
    requires ts != [] && i <= k <= |s| && Matches(TokenRegex(ts[0]), s, i, k) && WildMatch(ts[1..], s[k..])
    ensures WildMatch(ts, s[i..])
  {
    hide *;
    TokenMatches(ts[0], s, i, k);
    CutRest(s, i, k);
    WildJoin(ts, s[i..], k - i);
  }

  lemma FirstStands(ts: seq<Token>, s: string, i: nat) returns (k: nat)
    requires ts != [] && i <= |s| && WildMatch(ts, s[i..])
    ensures i <= k <= |s| && Matches(TokenRegex(ts[0]), s, i, k) && WildMatch(ts[1..], s[k..])
  {
    hide *;
    var n := WildSplit(ts, s[i..]);
    k := i + n;
    CutRest(s, i, k);
    TokenMatches(ts[0], s, i, k);
  }

  /** What is left from `i` on, cut at `k`. */
  lemma CutRest(s: string, i: nat, k: nat)
    requires i <= k <= |s|
    ensures s[i..][..k - i] == s[i..k] && s[i..][k - i..] == s[k..]
  {
  }

  lemma EndMatches(s: string, i: nat, j: nat)
    requires i <= j <= |s|
    ensures Matches(Cat(Eol, Empty), s, i, j) <==> i == j == |s|
  {
    if Matches(Cat(Eol, Empty), s, i, j) {
      var k := CatSplit(Eol, Empty, s, i, j);
    }
    if i == j == |s| {
      assert Matches(Eol, s, i, i) && Matches(Empty, s, i, j);
      CatJoin(Eol, Empty, s, i, i, j);
    }
  }

  lemma ParseEmptyBody()
    ensures ParseBranch("()$") == Ok(Cat(Empty, Whole([])), "")
  {
    ParseText([]);
    assert Text([]) + "$" == "$";
    assert "()$"[1..] == ")$" && ")$"[1..] == "$";
    assert ParseBranch(")$") == Ok(Empty, ")$");
    assert ParseAlt(")$") == Ok(Empty, ")$");
    assert ParseAtom("()$") == Ok(Empty, "$");
    assert ParsePiece("()$") == Ok(Empty, "$");
  }

  lemma ParseFull(p: string)
    requires Plain(p) && Unambiguous(p)
    ensures ParseAlt(FullRegex(p)) == Ok(if p == [] then Cat(Bol, Cat(Empty, Whole([]))) else Cat(Bol, Whole(Tokens(p))), "")
  {
    var rest := (if p == [] then "()" else Emit(p)) + "$";
    assert FullRegex(p) == "^" + rest && FullRegex(p)[1..] == rest;
    if p == [] {
      ParseEmptyBody();
      assert rest == "()$";
    } else {
      EmitIsText(p);
      ParseText(Tokens(p));
      assert ParseBranch(rest) == Ok(Whole(Tokens(p)), "");
    }
    assert ParsePiece(FullRegex(p)) == Ok(Bol, rest);
    var body := if p == [] then Cat(Empty, Whole([])) else Whole(Tokens(p));
    assert ParseBranch(rest) == Ok(body, "");
    assert ParseBranch(FullRegex(p)) == Ok(Cat(Bol, body), "");
  }

  lemma AnchorMatches(r: Regex, s: string, i: nat, j: nat)
    requires i <= j <= |s|
    ensures Matches(Cat(Bol, r), s, i, j) <==> i == 0 && Matches(r, s, 0, j)
  {
    if Matches(Cat(Bol, r), s, i, j) {
      var k := CatSplit(Bol, r, s, i, j);
    }
    if i == 0 && Matches(r, s, 0, j) {
      assert Matches(Bol, s, 0, 0);
      CatJoin(Bol, r, s, 0, 0, j);
    }
  }

  lemma EmptyThen(r: Regex, s: string, j: nat)
    requires j <= |s|
    ensures Matches(Cat(Empty, r), s, 0, j) <==> Matches(r, s, 0, j)
  {
    if Matches(Cat(Empty, r), s, 0, j) {
      var k := CatSplit(Empty, r, s, 0, j);
    }
    if Matches(r, s, 0, j) {
      assert Matches(Empty, s, 0, 0);
      CatJoin(Empty, r, s, 0, 0, j);
    }
  }

  /** The expression built for a wildcard accepts exactly the names that the
      wildcard means. */
  lemma TranslationMeaning(p: string, s: string)
    requires Plain(p) && Unambiguous(p)
    ensures Accepts(FullRegex(p), s) <==> Means(p, s)
  {
    hide Matches, WildMatch, Whole, FullRegex, ParseAlt, Tokens, Means;
    ParseFull(p);
    TokensMean(p, s);
    TokensEmpty();
    assert s[0..] == s;
    var re := ParseAlt(FullRegex(p)).re;
    forall i: nat, j: nat | i <= j <= |s|
      ensures Matches(re, s, i, j) <==> i == 0 && j == |s| && WildMatch(Tokens(p), s)
    {
      WholeMatches(Tokens(p), s, 0, j);
      if p == [] {
        AnchorMatches(Cat(Empty, Whole([])), s, i, j);
        EmptyThen(Whole([]), s, j);
      } else {
        AnchorMatches(Whole(Tokens(p)), s, i, j);
      }
    }
    if WildMatch(Tokens(p), s) {
      assert Matches(re, s, 0, |s|);
    }
  }

  lemma TokensEmpty()
    ensures Tokens("") == []
  {
  }

  // ------------------------------------------- the leading directory part

  predicate IsWild(c: char) {
    c == '*' || c == '?' || c == '['
  }

  /** The split of `DirStackAddInclude`: the directories before the first
      component with a wildcard, or all of a pattern without wildcards. */
  method LeadingDirectory(arg: string) returns (start: nat)
    ensures start <= |arg|
    ensures forall i :: 0 <= i < start ==> !IsWild(arg[i])
    ensures start == |arg| || start == 0 || IsSeparator(arg[start - 1])
    ensures start < |arg| ==>
      exists k :: start <= k < |arg| && IsWild(arg[k]) && forall i :: start <= i < k ==> !IsSeparator(arg[i])
  {
    var posn := 0;
    start := 0;
    while posn < |arg|
      invariant posn == start <= |arg|
      invariant forall i :: 0 <= i < start ==> !IsWild(arg[i])
      invariant start == |arg| || start == 0 || IsSeparator(arg[start - 1])
      decreases |arg| - posn
    {
      while posn < |arg| && arg[posn] != '/' && arg[posn] != '\\' && !IsWild(arg[posn])
        invariant start <= posn <= |arg|
        invariant forall i :: start <= i < posn ==> !IsWild(arg[i]) && !IsSeparator(arg[i])
      {
        posn := posn + 1;
      }
      if posn < |arg| && IsWild(arg[posn]) {
        return;
      } else if posn < |arg| {
        posn := posn + 1;
      }
      start := posn;
    }
  }

  /** A directory part as it appears in a name. */
  function Slashes(p: string): (r: string) {
    if p == [] then [] else [Slashed(p[0])] + Slashes(p[1..])
  }

  function Slashed(c: char): (r: char) {
    if IsSeparator(c) then '/' else c
  }

  lemma SlashesStep(p: string, n: nat)
    requires 0 < n <= |p|
    ensures Slashes(p[..n]) == [Slashed(p[0])] + Slashes(p[1..][..n - 1])
    ensures p[1..][n - 1..] == p[n..]
  {
    assert p[..n][1..] == p[1..][..n - 1] && p[..n][0] == p[0];
  }

  lemma PrefixToken(p: string)
    requires p != [] && !IsWild(p[0])
    ensures Tokens(p) == [FirstToken(p)] + Tokens(p[1..])
    ensures forall x: string :: Stands(FirstToken(p), x) <==> x == [Slashed(p[0])]
  {
    assert Width(p) == 1;
  }

  /** A match of the whole pattern starts with the leading directory. */
  lemma {:induction false} PrefixDown(p: string, n: nat, s: string) returns (rest: string)
    requires n <= |p| && forall i :: 0 <= i < n ==> !IsWild(p[i])
    requires WildMatch(Tokens(p), s)
    ensures s == Slashes(p[..n]) + rest && WildMatch(Tokens(p[n..]), rest)
    decreases n
  {
    hide WildMatch, Tokens, Stands, Slashes, FirstToken;
    if n == 0 {
      assert p[0..] == p && p[..0] == "";
      SlashesEmpty();
      rest := s;
    } else {
      PrefixToken(p);
      SlashesStep(p, n);
      var k := WildSplit(Tokens(p), s);
      rest := PrefixDown(p[1..], n - 1, s[k..]);
      assert s == s[..k] + s[k..];
    }
  }

  lemma SlashesEmpty()
    ensures Slashes("") == ""
  {
  }

  /** And below the leading directory the rest decides. */
  lemma {:induction false} PrefixUp(p: string, n: nat, rest: string)
    requires n <= |p| && forall i :: 0 <= i < n ==> !IsWild(p[i])
    requires WildMatch(Tokens(p[n..]), rest)
    ensures WildMatch(Tokens(p), Slashes(p[..n]) + rest)
    decreases n
  {
    hide WildMatch, Tokens, Stands, Slashes, FirstToken;
    if n == 0 {
      assert p[0..] == p && p[..0] == "";
      SlashesEmpty();
      assert "" + rest == rest;
    } else {
      PrefixToken(p);
      SlashesStep(p, n);
      PrefixUp(p[1..], n - 1, rest);
      var s := Slashes(p[..n]) + rest;
      assert s[1..] == Slashes(p[1..][..n - 1]) + rest && s[..1] == [s[0]];
      WildJoin(Tokens(p), s, 1);
    }
  }

  /** Matching the rest of the pattern below the leading directory is the
      same as matching the whole pattern. */
  lemma PrefixMeaning(p: string, n: nat, s: string)
    requires n <= |p| && forall i :: 0 <= i < n ==> !IsWild(p[i])
    ensures Means(p, s) <==> exists rest: string :: s == Slashes(p[..n]) + rest && Means(p[n..], rest)
  {
    hide WildMatch, Tokens, Slashes, Means;
    TokensMean(p, s);
    if Means(p, s) {
      var rest := PrefixDown(p, n, s);
      TokensMean(p[n..], rest);
    }
    if rest: string :| s == Slashes(p[..n]) + rest && Means(p[n..], rest) {
      TokensMean(p[n..], rest);
      PrefixUp(p, n, rest);
    }
  }
}
