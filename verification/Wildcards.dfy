/** File-set wildcards and their translation to extended regular
    expressions. */
module Wildcards {
  import Regex

  // -------------------------------------------------------- the translation

  predicate IsSeparator(c: char) {
    c == '/' || c == '\\'
  }

  /** Characters that are escaped in the output.  A backslash never gets that
      far, because it is a separator. */
  predicate IsSpecial(c: char) {
    c == '.' || c == '^' || c == '$' || c == ']' || c == '\\' || c == '(' || c == ')'
  }

  /** How many characters the next step of the translation takes. */
  function Width(p: string): (n: nat)
    requires p != []
    ensures 1 <= n <= |p|
  {
    if p[0] == '*' && |p| > 1 && p[1] == '*' then
      if |p| > 2 && IsSeparator(p[2]) then 3 else 2
    else if p[0] == '[' then
      var e := Regex.Closing(p, 1);
      if e < |p| then e + 1 else e
    else 1
  }

  /** What that step emits. */
  function StepText(p: string): (r: string)
    requires p != []
  {
    if p[0] == '*' && |p| > 1 && p[1] == '*' then
      if |p| > 2 && IsSeparator(p[2]) then "(.*/|())" else ".*"
    else if p[0] == '*' then "[^/]*"
    else if p[0] == '?' then "."
    else if IsSeparator(p[0]) then "/"
    else if p[0] == '[' then "[" + p[1..Regex.Closing(p, 1)] + "]"
    else if IsSpecial(p[0]) then ['\\', p[0]]
    else [p[0]]
  }

  function Emit(p: string): (r: string) {
    if p == [] then "" else StepText(p) + Emit(p[Width(p)..])
  }

  function FullRegex(p: string): (r: string) {
    "^" + (if p == [] then "()" else Emit(p)) + "$"
  }

  /** Whether sub-directories have to be searched: some step is `**` or a
      separator. */
  predicate Recursive(p: string) {
    p != [] && ((p[0] == '*' && |p| > 1 && p[1] == '*') || IsSeparator(p[0]) || Recursive(p[Width(p)..]))
  }

  /** Does one step ask for sub-directories? */
  predicate StepRecursive(p: string)
    requires p != []
  {
    (p[0] == '*' && |p| > 1 && p[1] == '*') || IsSeparator(p[0])
  }

  /** Copies the members of a set, up to its `]` or the end. */
  method CopySet(arg: string, start: nat) returns (text: string, i: nat)
    requires start < |arg| && arg[start] == '['
    ensures text == "[" + arg[start..][1..Regex.Closing(arg[start..], 1)] + "]"
    ensures i == start + Width(arg[start..])
  {
    ghost var rest := arg[start..];
    text, i := "[", start + 1;
    while i < |arg| && arg[i] != ']'
      invariant start + 1 <= i <= |arg|
      invariant Regex.Closing(rest, 1) == Regex.Closing(rest, i - start)
      invariant text == "[" + rest[1..i - start]
    {
      text := text + [arg[i]];
      i := i + 1;
    }
    text := text + "]";
    if i < |arg| {
      i := i + 1;
    }
  }

  /** One round of the loop in `BuildIncludeRegex`. */
  method TranslateStep(arg: string, start: nat) returns (text: string, i: nat, recursive: bool)
    requires start < |arg|
    ensures text == StepText(arg[start..]) && i == start + Width(arg[start..])
    ensures recursive == StepRecursive(arg[start..])
  {
    var ch := arg[start];
    i, recursive := start + 1, false;
    if ch == '*' && i < |arg| && arg[i] == '*' {
      recursive := true;
      if i + 1 < |arg| && (arg[i + 1] == '/' || arg[i + 1] == '\\') {
        text := "(.*/|())";
        i := i + 2;
      } else {
        text := ".*";
        i := i + 1;
      }
    } else if ch == '*' {
      text := "[^/]*";
    } else if ch == '?' {
      text := ".";
    } else if ch == '/' || ch == '\\' {
      recursive := true;
      text := "/";
    } else if ch == '[' {
      text, i := CopySet(arg, start);
    } else if ch == '.' || ch == '^' || ch == '$' || ch == ']' || ch == '\\' || ch == '(' || ch == ')' {
      text := ['\\', ch];
    } else {
      text := [ch];
    }
  }

  /** `BuildIncludeRegex` up to the call of the regular expression compiler. */
  method BuildIncludeRegex(arg: string) returns (regex: string, recursive: bool)
    ensures regex == FullRegex(arg)
    ensures recursive <==> Recursive(arg)
  {
    hide Emit, Recursive, StepText, Width, StepRecursive, FullRegex;
    regex, recursive := "^", false;
    var i := 0;
    assert arg[0..] == arg;
    while i < |arg|
      invariant i <= |arg|
      invariant "^" + Emit(arg) == regex + Emit(arg[i..])
      invariant Recursive(arg) <==> recursive || Recursive(arg[i..])
      invariant |regex| >= 1 && (|regex| == 1 <==> i == 0)
    {
      ghost var rest := arg[i..];
      ghost var before := regex;
      EmitStep(rest);
      var text, next, descend := TranslateStep(arg, i);
      assert rest[Width(rest)..] == arg[next..];
      regex := regex + text;
      recursive := recursive || descend;
      i := next;
      assert before + (text + Emit(arg[i..])) == regex + Emit(arg[i..]);
    }
    assert arg[i..] == [];
    EmitEnd();
    Finish(arg, regex, i);
    if |regex| == 1 {
      regex := regex + "()";
    }
    regex := regex + "$";
  }

  lemma EmitStep(p: string)
    requires p != []
    ensures Emit(p) == StepText(p) + Emit(p[Width(p)..]) && StepText(p) != ""
    ensures Recursive(p) <==> StepRecursive(p) || Recursive(p[Width(p)..])
  {
  }

  lemma EmitEnd()
    ensures Emit([]) == "" && !Recursive([])
  {
  }

  lemma Finish(arg: string, regex: string, i: nat)
    requires i == |arg| && "^" + Emit(arg) == regex + Emit(arg[i..])
    requires |regex| == 1 <==> i == 0
    ensures FullRegex(arg) == (if |regex| == 1 then regex + "()" else regex) + "$"
  {
    assert arg[i..] == [];
    assert regex + "" == regex;
    if i == 0 {
      assert regex == "^";
    }
  }
}
