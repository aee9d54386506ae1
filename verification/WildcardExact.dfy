/** Exactly when the translation of a wildcard keeps its meaning, and what the
    request to search sub-directories means. */
module WildcardExact {
  import opened Regex
  import opened Wildcards
  import opened WildcardMeaning

  // ----------------------------------------------------- shortest and sample

  /** The fewest characters that a token stands for. */
  function Weight(t: Token): (n: nat) {
    if t.DirPrefix? || IsStarred(t) then 0 else 1
  }

  function Weights(ts: seq<Token>): (n: nat) {
    if ts == [] then 0 else Weight(ts[0]) + Weights(ts[1..])
  }

  /** A shortest string that a token stands for. */
  ghost function Sample(t: Token): (x: string)
    requires Emittable(t)
    ensures Stands(t, x) && |x| == Weight(t)
  {
    match t
    case DirPrefix => ""
    case Anything => ""
    case NoSeparator => ""
    case OneChar => "a"
    case Separator => "/"
    case Set(negated, members) =>
      if negated then
        var c :| c !in members;
        [c]
      else [members[0]]
    case Literal(c) => [c]
  }

  ghost function Samples(ts: seq<Token>): (s: string)
    requires forall t :: t in ts ==> Emittable(t)
  {
    if ts == [] then "" else Sample(ts[0]) + Samples(ts[1..])
  }

  /** Every wildcard means some name. */
  lemma {:induction false} SamplesMatch(ts: seq<Token>)
    requires forall t :: t in ts ==> Emittable(t)
    ensures WildMatch(ts, Samples(ts))
  {
    hide Stands, Emittable;
    if ts == [] {
      WildEnd("");
    } else {
      SamplesMatch(ts[1..]);
      var x, s := Sample(ts[0]), Samples(ts);
      assert s[..|x|] == x && s[|x|..] == Samples(ts[1..]);
      WildJoin(ts, s, |x|);
    }
  }

  /** No name is shorter than its tokens demand. */
  lemma {:induction false} NoShorter(ts: seq<Token>, s: string)
    requires WildMatch(ts, s)
    ensures |s| >= Weights(ts)
  {
    if ts != [] {
      var k := WildSplit(ts, s);
      assert |s[..k]| >= Weight(ts[0]);
      NoShorter(ts[1..], s[k..]);
    }
  }

  // ----------------------------------------------- the expression accepts less

  /** Up to the first `|`, without the `+`: a string that the expression
      matches, if it is one. */
  ghost function Short(ts: seq<Token>): (s: string)
    requires forall t :: t in ts ==> Emittable(t)
  {
    if ts == [] || ts[0] == Literal('|') then ""
    else (if ts[0] == Literal('+') then "" else Sample(ts[0])) + Short(ts[1..])
  }

  lemma {:induction false} ShortIsShorter(ts: seq<Token>)
    requires forall t :: t in ts ==> Emittable(t)
    ensures |Short(ts)| <= Weights(ts)
    ensures (exists t :: t in ts && IsOperator(t)) ==> |Short(ts)| < Weights(ts)
  {
    hide Emittable, Sample;
    if ts != [] {
      ShortIsShorter(ts[1..]);
      assert ts == [ts[0]] + ts[1..];
    }
  }

  lemma ParseRepeated(t: Token, rest: string)
    requires Writable(t) && !IsStarred(t)
    ensures ParsePiece(TokenText(t) + ("+" + rest)) == Ok(Cat(TokenRegex(t), Star(TokenRegex(t))), rest)
  {
    ParseTokenAtom(t, "+" + rest);
    assert ("+" + rest)[1..] == rest;
  }

  lemma PlusIsNoBranch(rest: string)
    ensures ParseBranch("+" + rest).Fail?
  {
    assert ParseAtom("+" + rest).Fail?;
  }

  lemma BarEndsBranch(rest: string)
    ensures ParseBranch("|" + rest) == Ok(Empty, "|" + rest)
  {
  }

  /** A piece, and then the rest of the branch. */
  lemma BranchStep(s: string, a: Regex, rest: string)
    requires s != [] && s[0] != '|' && s[0] != ')' && ParsePiece(s) == Ok(a, rest)
    ensures ParseBranch(s) == match ParseBranch(rest)
                              case Fail => Fail
                              case Ok(b, rest2) => Ok(Cat(a, b), rest2)
  {
  }

  lemma TextStep(ts: seq<Token>)
    requires ts != []
    ensures Text(ts) + "$" == TokenText(ts[0]) + (Text(ts[1..]) + "$")
  {
  }

  lemma NotQuantified(ts: seq<Token>)
    requires (forall t :: t in ts ==> Emittable(t)) && (ts == [] || ts[0] != Literal('+'))
    ensures !IsQuantifier((Text(ts) + "$")[0])
  {
    if ts != [] {
      TextStep(ts);
      if ts[0] != Literal('|') {
        TokenStart(ts[0], Text(ts[1..]) + "$");
      }
    }
  }

  ghost predicate MatchesAfter(re: Regex, pre: string, s: string) {
    Matches(re, pre + s, |pre|, |pre + s|)
  }

  /** A token, possibly repeated, and then the rest. */
  lemma TokenThen(t: Token, repeated: bool, b: Regex, pre: string, s: string)
    requires Emittable(t) && MatchesAfter(b, pre + Sample(t), s)
    ensures var r := TokenRegex(t);
            MatchesAfter(Cat(if repeated then Cat(r, Star(r)) else r, b), pre, Sample(t) + s)
  {
    hide Stands, Emittable, TokenRegex;
    var x, r := Sample(t), TokenRegex(t);
    var name, i, k := pre + (x + s), |pre|, |pre + x|;
    assert name == pre + x + s && name[i..k] == x;
    TokenMatches(t, name, i, k);
    if repeated {
      assert Matches(Star(r), name, k, k);
      CatJoin(r, Star(r), name, i, k, k);
      CatJoin(Cat(r, Star(r)), b, name, i, k, |name|);
    } else {
      CatJoin(r, b, name, i, k, |name|);
    }
  }

  /** If the text compiles, its first branch matches the short string. */
  lemma {:induction false} ShortMatches(ts: seq<Token>, pre: string)
    requires forall t :: t in ts ==> Emittable(t)
    requires ParseBranch(Text(ts) + "$").Ok?
    ensures MatchesAfter(ParseBranch(Text(ts) + "$").re, pre, Short(ts))
    decreases |ts|
  {
    hide Emittable, Sample, ParseBranch, ParsePiece, TokenText, TokenRegex, MatchesAfter, Matches;
    if ts == [] {
      ParseText([]);
      NothingLeft(pre);
    } else {
      TextStep(ts);
      var rest := Text(ts[1..]) + "$";
      if ts[0] == Literal('|') {
        OperatorText();
        BarEndsBranch(rest);
        EmptyAfter(pre);
      } else if ts[0] == Literal('+') {
        OperatorText();
        PlusIsNoBranch(rest);
        assert false;
      } else {
        TokenStart(ts[0], rest);
        if |ts| > 1 && ts[1] == Literal('+') {
          OperatorText();
          TextStep(ts[1..]);
          var rest2 := Text(ts[2..]) + "$";
          assert ts[1..][1..] == ts[2..];
          if IsStarred(ts[0]) {
            ParseStarred(ts[0], rest);
            BranchStep(Text(ts) + "$", TokenRegex(ts[0]), rest);
            PlusIsNoBranch(rest2);
            assert false;
          } else {
            ParseRepeated(ts[0], rest2);
            BranchStep(Text(ts) + "$", Cat(TokenRegex(ts[0]), Star(TokenRegex(ts[0]))), rest2);
            ShortMatches(ts[2..], pre + Sample(ts[0]));
            TokenThen(ts[0], true, ParseBranch(rest2).re, pre, Short(ts[2..]));
            assert Short(ts[1..]) == "" + Short(ts[2..]) == Short(ts[2..]);
          }
        } else {
          NotQuantified(ts[1..]);
          ParseToken(ts[0], rest);
          BranchStep(Text(ts) + "$", TokenRegex(ts[0]), rest);
          ShortMatches(ts[1..], pre + Sample(ts[0]));
          TokenThen(ts[0], false, ParseBranch(rest).re, pre, Short(ts[1..]));
        }
      }
    }
  }

  lemma OperatorText()
    ensures TokenText(Literal('|')) == "|" && TokenText(Literal('+')) == "+"
  {
  }

  lemma NothingLeft(pre: string)
    ensures MatchesAfter(Whole([]), pre, "")
  {
    assert pre + "" == pre;
    EndMatches(pre, |pre|, |pre|);
  }

  lemma EmptyAfter(pre: string)
    ensures MatchesAfter(Empty, pre, "")
  {
    assert pre + "" == pre;
  }

  /** When the whole text compiles, it accepts the short string. */
  lemma ShortAccepted(ts: seq<Token>)
    requires forall t :: t in ts ==> Emittable(t)
    requires var p := ParseAlt("^" + (Text(ts) + "$")); p.Ok? && p.rest == ""
    ensures Accepts("^" + (Text(ts) + "$"), Short(ts))
  {
    hide Emittable, Sample, TokenText, Short;
    var body := Text(ts) + "$";
    var all := "^" + body;
    assert all[1..] == body;
    AnchorPiece(body);
    BranchStep(all, Bol, body);
    var b := ParseBranch(body).re;
    ShortMatches(ts, "");
    assert "" + Short(ts) == Short(ts);
    AnchorMatches(b, Short(ts), 0, |Short(ts)|);
    FirstBranch(all, Short(ts));
  }

  lemma AnchorPiece(body: string)
    requires body != [] && ParseAlt("^" + body).Ok?
    ensures ParsePiece("^" + body) == Ok(Bol, body)
  {
    assert ("^" + body)[1..] == body;
    assert ParseAtom("^" + body) == Ok(Bol, body);
  }

  /** What the first alternative matches is accepted. */
  lemma FirstBranch(all: string, s: string)
    requires ParseAlt(all).Ok? && ParseAlt(all).rest == ""
    requires ParseBranch(all).Ok? && Matches(ParseBranch(all).re, s, 0, |s|)
    ensures Accepts(all, s)
  {
    hide Matches, ParseBranch;
    var left := ParseBranch(all).re;
    var re := ParseAlt(all).re;
    if re != left {
      assert re.Alt? && re.left == left;
      AltLeft(re.left, re.right, s);
    }
    assert Matches(re, s, 0, |s|);
  }

  lemma AltLeft(a: Regex, b: Regex, s: string)
    requires Matches(a, s, 0, |s|)
    ensures Matches(Alt(a, b), s, 0, |s|)
  {
  }

  lemma PlainAnchor(body: string)
    requires body != [] && !IsQuantifier(body[0])
    ensures ParsePiece("^" + body) == Ok(Bol, body)
  {
    assert ("^" + body)[1..] == body;
    assert ParseAtom("^" + body) == Ok(Bol, body);
  }

  // --------------------------------------------------------------- the result

  /** With an operator among its plain characters, a wildcard differs from its
      translation on one of two names. */
  lemma OperatorsDiffer(p: string) returns (s: string)
    requires Plain(p) && !Unambiguous(p)
    ensures Means(p, s) != Accepts(FullRegex(p), s)
  {
    hide Means, Emittable, Sample, WildMatch, Matches, ParseAlt, Short, Text;
    TokensEmpty();
    var ts := Tokens(p);
    EmitIsText(p);
    assert FullRegex(p) == "^" + (Text(ts) + "$");
    ShortIsShorter(ts);
    if ParseAlt(FullRegex(p)).Ok? && ParseAlt(FullRegex(p)).rest == "" {
      s := Short(ts);
      ShortAccepted(ts);
      if WildMatch(ts, s) {
        NoShorter(ts, s);
      }
    } else {
      s := Samples(ts);
      SamplesMatch(ts);
    }
    TokensMean(p, s);
  }

  /** The translation keeps the meaning of a wildcard if and only if its plain
      characters include no `+` and no `|`. */
  lemma TranslationExactly(p: string)
    requires Plain(p)
    ensures (forall s :: Accepts(FullRegex(p), s) <==> Means(p, s)) <==> Unambiguous(p)
  {
    hide Accepts, Means, Emittable, Tokens, FullRegex;
    if Unambiguous(p) {
      forall s ensures Accepts(FullRegex(p), s) <==> Means(p, s) {
        TranslationMeaning(p, s);
      }
    } else {
      var s := OperatorsDiffer(p);
    }
  }

  /** Without sets, every character other than a wildcard or a separator is a
      token of its own. */
  lemma {:induction false} PlainCharacters(p: string, c: char)
    requires '[' !in p && c != '*' && c != '?' && !IsSeparator(c)
    ensures Literal(c) in Tokens(p) <==> c in p
    ensures forall t :: t in Tokens(p) ==> !t.Set? && (t.Literal? ==> t.c in p && t.c != '*' && t.c != '?' && !IsSeparator(t.c))
  {
    if p != [] {
      var n := Width(p);
      PlainCharacters(p[n..], c);
      assert p == p[..n] + p[n..];
      assert forall i :: 0 < i < n ==> p[i] == '*' || IsSeparator(p[i]);
      assert p[..n][0] == p[0];
    }
  }

  /** The same condition on the text of a pattern without sets. */
  lemma WithoutSets(p: string)
    requires '[' !in p && '{' !in p
    ensures (forall s :: Accepts(FullRegex(p), s) <==> Means(p, s)) <==> '+' !in p && '|' !in p
  {
    hide Accepts, Means, Tokens, FullRegex;
    PlainCharacters(p, '+');
    PlainCharacters(p, '|');
    TranslationExactly(p);
  }

  /** With a `+` the translation means something else: `a+` is to match the
      name `a+`, but the expression takes the plus as a repetition. */
  lemma PlusIsRepetition()
    ensures Means("a+", "a+") && !Accepts(FullRegex("a+"), "a+")
    ensures !Means("a+", "aa") && Accepts(FullRegex("a+"), "aa")
  {
    TokensMean("a+", "a+");
    TokensMean("a+", "aa");
    PlusMeans();
    PlusRejects();
    PlusAccepts();
  }

  lemma PlusMeans()
    ensures WildMatch(Tokens("a+"), "a+") && !WildMatch(Tokens("a+"), "aa")
  {
    hide WildMatch;
    PlusTokens();
    var ts, plus := [Literal('a'), Literal('+')], [Literal('+')];
    assert ts[1..] == plus && plus[1..] == [];
    assert "a+"[..1] == "a" && "a+"[1..] == "+" && "+"[..1] == "+" && "+"[1..] == "";
    WildEnd("");
    WildJoin(plus, "+", 1);
    WildJoin(ts, "a+", 1);
    if WildMatch(ts, "aa") {
      var k := WildSplit(ts, "aa");
      assert "aa"[1..] == "a";
      var m := WildSplit(plus, "a");
    }
  }

  lemma PlusRejects()
    ensures !Accepts(FullRegex("a+"), "a+")
  {
    ParsePlus();
    var some := Cat(Lit('a'), Star(Lit('a')));
    if Accepts(FullRegex("a+"), "a+") {
      var i: nat, j: nat :| i <= j <= 2 && Matches(Cat(Bol, Cat(some, Whole([]))), "a+", i, j);
      AnchorMatches(Cat(some, Whole([])), "a+", i, j);
      var m := CatSplit(some, Whole([]), "a+", 0, j);
      EndMatches("a+", m, j);
      var n := CatSplit(Lit('a'), Star(Lit('a')), "a+", 0, 2);
      StarUnfold(Lit('a'), "a+", 1, 2);
    }
  }

  lemma PlusAccepts()
    ensures Accepts(FullRegex("a+"), "aa")
  {
    ParsePlus();
    var some := Cat(Lit('a'), Star(Lit('a')));
    assert Matches(Lit('a'), "aa", 0, 1) && Matches(Lit('a'), "aa", 1, 2) && Matches(Star(Lit('a')), "aa", 2, 2);
    assert Matches(Star(Lit('a')), "aa", 1, 2);
    CatJoin(Lit('a'), Star(Lit('a')), "aa", 0, 1, 2);
    EndMatches("aa", 2, 2);
    CatJoin(some, Whole([]), "aa", 0, 2, 2);
    AnchorMatches(Cat(some, Whole([])), "aa", 0, 2);
  }

  lemma PlusTokens()
    ensures Tokens("a+") == [Literal('a'), Literal('+')]
  {
    assert "a+"[1..] == "+" && "+"[1..] == "";
    assert Tokens("") == [];
    assert Tokens("+") == [Literal('+')];
  }

  lemma ParsePlus()
    ensures ParseAlt(FullRegex("a+")) == Ok(Cat(Bol, Cat(Cat(Lit('a'), Star(Lit('a'))), Whole([]))), "")
  {
    hide ParseBranch, ParsePiece;
    ParseText([]);
    PlusTokens();
    EmitIsText("a+");
    OperatorText();
    TextStep([Literal('a'), Literal('+')]);
    TextStep([Literal('+')]);
    assert [Literal('a'), Literal('+')][1..] == [Literal('+')] && [Literal('+')][1..] == [];
    var body := "a+$";
    assert Text([]) + "$" == "$" && TokenText(Literal('a')) == "a" && "a" + ("+" + "$") == body;
    ParseRepeated(Literal('a'), "$");
    BranchStep(body, Cat(Lit('a'), Star(Lit('a'))), "$");
    assert FullRegex("a+") == "^" + body;
    PlainAnchor(body);
    BranchStep("^" + body, Bol, body);
  }


  // ---------------------------------------------------- the recursion flag

  /** Tokens that ask for sub-directories to be searched. */
  predicate Descends(t: Token) {
    t.DirPrefix? || t.Anything? || t.Separator?
  }

  lemma {:induction false} RecursiveTokens(p: string)
    ensures Recursive(p) <==> exists t :: t in Tokens(p) && Descends(t)
  {
    if p != [] {
      RecursiveTokens(p[Width(p)..]);
      assert StepRecursive(p) <==> Descends(FirstToken(p));
      assert FirstToken(p) in Tokens(p);
    }
  }

  lemma {:induction false} SlashFrom(ts: seq<Token>, s: string) returns (t: Token)
    requires WildMatch(ts, s) && '/' in s
    ensures t in ts && Stands(t, "/")
  {
    var k := WildSplit(ts, s);
    assert s == s[..k] + s[k..];
    if '/' in s[..k] {
      t := ts[0];
    } else {
      t := SlashFrom(ts[1..], s[k..]);
    }
  }

  lemma {:induction false} SlashTo(ts: seq<Token>, t: Token) returns (s: string)
    requires t in ts && Stands(t, "/") && forall u :: u in ts ==> Emittable(u)
    ensures WildMatch(ts, s) && '/' in s
  {
    hide Stands, Emittable, WildMatch;
    var x, rest;
    if t == ts[0] {
      x, rest := "/", Samples(ts[1..]);
      SamplesMatch(ts[1..]);
    } else {
      rest := SlashTo(ts[1..], t);
      x := Sample(ts[0]);
    }
    s := x + rest;
    assert s[..|x|] == x && s[|x|..] == rest;
    WildJoin(ts, s, |x|);
  }

  /** A name in a sub-directory can match if and only if the search of
      sub-directories is requested, or some `?` or set stands for a separator:
      these two do not request it. */
  lemma RecursiveMeaning(p: string)
    requires Plain(p)
    ensures (exists s :: Means(p, s) && '/' in s) <==>
      Recursive(p) || exists t :: t in Tokens(p) && (t.OneChar? || (t.Set? && ('/' in t.members) != t.negated))
  {
    hide WildMatch, Means, Tokens, Emittable, Recursive;
    var ts := Tokens(p);
    RecursiveTokens(p);
    if s :| Means(p, s) && '/' in s {
      TokensMean(p, s);
      var t := SlashFrom(ts, s);
      LoneSlash(p, t);
    }
    if t :| t in ts && (Descends(t) || t.OneChar? || (t.Set? && ('/' in t.members) != t.negated)) {
      LoneSlash(p, t);
      var s := SlashTo(ts, t);
      TokensMean(p, s);
    }
  }

  /** Which tokens of a pattern stand for a separator. */
  lemma LoneSlash(p: string, t: Token)
    requires Plain(p) && t in Tokens(p)
    ensures Stands(t, "/") <==> Descends(t) || t.OneChar? || (t.Set? && ('/' in t.members) != t.negated)
  {
    assert Emittable(t);
  }
}
