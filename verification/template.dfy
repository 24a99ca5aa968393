/** `replaceVariables` (src/generator.ts): `{{ name }}` substitution over a template. */
module Template {
  import opened Maybe
  import opened Text
  import Assoc

  /** A template variable name as the program writes them (`parentNodeNames`, `typeName`,
      `generationTimestamp`, `sourceFile`): ASCII letters, so that the name spliced into
      the placeholder pattern matches itself literally. */
  predicate IsVariableName(x: string) {
    |x| > 0 && forall i :: 0 <= i < |x| ==> IsAsciiLetter(x[i])
  }

  /** The placeholder `{{ x }}`, with the given white space inside the braces. */
  function Placeholder(lead: string, x: string, trail: string): string {
    "{{" + lead + x + trail + "}}"
  }

  /** Length of the match of `{{(?:\s+)?(x)(?:\s+)?}}` at the start of `s`, if any. The
      white-space runs are taken greedily; for a variable name, which starts and ends with
      a letter, backtracking finds no other match. */
  function MatchLength(s: string, x: string): (r: Option<nat>)
    ensures r.Some? ==> 2 + |x| + 2 <= r.value <= |s|
  {
    if !StartsWith(s, "{{") then None
    else
      var i := SkipWhitespace(s, 2);
      if !OccursAt(s, x, i) then None
      else
        var j := SkipWhitespace(s, i + |x|);
        if !OccursAt(s, "}}", j) then None
        else Some(j + 2)
  }

  /** What the scan replaces is exactly a placeholder of `x`. */
  lemma MatchIsPlaceholder(s: string, x: string)
    requires MatchLength(s, x).Some?
    ensures exists lead, trail :: AllWhitespace(lead) && AllWhitespace(trail)
              && s[..MatchLength(s, x).value] == Placeholder(lead, x, trail)
  {
    var i := SkipWhitespace(s, 2);
    var j := SkipWhitespace(s, i + |x|);
    var lead, trail := s[2..i], s[i + |x|..j];
    assert AllWhitespace(lead) by {
      forall k | 0 <= k < |lead| ensures IsWhitespace(lead[k]) { assert lead[k] == s[2 + k]; }
    }
    assert AllWhitespace(trail) by {
      forall k | 0 <= k < |trail| ensures IsWhitespace(trail[k]) { assert trail[k] == s[i + |x| + k]; }
    }
    assert s[..j + 2] == Placeholder(lead, x, trail);
  }

  /** `str.replaceAll(/{{(?:\s+)?(x)(?:\s+)?}}/g, v)`: a left-to-right scan that replaces
      each match and resumes after it. */
  function ReplaceAll(s: string, x: string, v: string): string
    decreases |s|
  {
    if |s| == 0 then ""
    else match MatchLength(s, x)
      case Some(n) => v + ReplaceAll(s[n..], x, v)
      case None => [s[0]] + ReplaceAll(s[1..], x, v)
  }

  /** The value written in for a variable: `value || ''`, surrounded by one space on
      each side when padding is asked for. */
  function Padded(v: string, pad: bool): string {
    if pad then " " + v + " " else v
  }

  /** The substitution loop of `replaceVariables`, one variable after the other. */
  function Substitute(s: string, vars: seq<(string, string)>, pad: bool): string
    decreases |vars|
  {
    if |vars| == 0 then s
    else Substitute(ReplaceAll(s, vars[0].0, Padded(vars[0].1, pad)), vars[1..], pad)
  }

  /** `replaceVariables(template, variables, padVariable)`. */
  function ReplaceVariables(template: string, vars: seq<(string, string)>, pad: bool): string {
    Trim(Substitute(template, vars, pad))
  }

  /** A template as literal text and placeholders. */
  datatype Piece = Literal(text: string) | Slot(name: string, lead: string, trail: string)

  /** Literal text holds no `{` and a placeholder names a variable with white space around it. */
  predicate WellFormed(ps: seq<Piece>) {
    forall k :: 0 <= k < |ps| ==>
      match ps[k]
      case Literal(t) => NoChar(t, '{')
      case Slot(x, l, t) => IsVariableName(x) && AllWhitespace(l) && AllWhitespace(t)
  }

  /** The template text the pieces spell. */
  function Spell(ps: seq<Piece>): string {
    if |ps| == 0 then ""
    else
      (match ps[0]
       case Literal(t) => t
       case Slot(x, l, t) => Placeholder(l, x, t))
      + Spell(ps[1..])
  }

  /** The text the pieces stand for once every placeholder of a supplied variable holds
      that variable's (padded) value; placeholders of other variables stay as written. */
  function Fill(ps: seq<Piece>, vars: seq<(string, string)>, pad: bool): string {
    if |ps| == 0 then ""
    else
      (match ps[0]
       case Literal(t) => t
       case Slot(x, l, t) =>
         match Assoc.Get(vars, x)
         case Some(v) => Padded(v, pad)
         case None => Placeholder(l, x, t))
      + Fill(ps[1..], vars, pad)
  }

  /** Every placeholder of a supplied variable is replaced by its value, white space
      inside the braces or not, nothing else changes, and the result is trimmed. Holds
      when no value brings in a `{` of its own. */
  lemma {:induction false} ReplaceVariablesFills(ps: seq<Piece>, vars: seq<(string, string)>, pad: bool)
    requires WellFormed(ps)
    requires forall k :: 0 <= k < |vars| ==> IsVariableName(vars[k].0) && NoChar(vars[k].1, '{')
    ensures ReplaceVariables(Spell(ps), vars, pad) == Trim(Fill(ps, vars, pad))
  {
    SubstituteFills(ps, vars, pad);
  }

  lemma {:induction false} SubstituteFills(ps: seq<Piece>, vars: seq<(string, string)>, pad: bool)
    requires WellFormed(ps)
    requires forall k :: 0 <= k < |vars| ==> IsVariableName(vars[k].0) && NoChar(vars[k].1, '{')
    ensures Substitute(Spell(ps), vars, pad) == Fill(ps, vars, pad)
    decreases |vars|
  {
    if |vars| == 0 {
      FillNothing(ps, pad);
    } else {
      var (x, v) := vars[0];
      var w := Padded(v, pad);
      assert NoChar(w, '{');
      OnePass(ps, x, w);
      var ps' := Bind(ps, x, w);
      SubstituteFills(ps', vars[1..], pad);
      FillBind(ps, vars, pad);
    }
  }

  /** The pieces after one variable's placeholders have become literal text. */
  function Bind(ps: seq<Piece>, x: string, w: string): (r: seq<Piece>)
    ensures |r| == |ps|
  {
    if |ps| == 0 then []
    else
      [match ps[0]
       case Slot(y, _, _) => if y == x then Literal(w) else ps[0]
       case Literal(_) => ps[0]]
      + Bind(ps[1..], x, w)
  }

  lemma {:induction false} FillNothing(ps: seq<Piece>, pad: bool)
    ensures Fill(ps, [], pad) == Spell(ps)
  {
    if |ps| > 0 { FillNothing(ps[1..], pad); }
  }

  lemma {:induction false} FillBind(ps: seq<Piece>, vars: seq<(string, string)>, pad: bool)
    requires |vars| > 0
    ensures Fill(Bind(ps, vars[0].0, Padded(vars[0].1, pad)), vars[1..], pad) == Fill(ps, vars, pad)
  {
    if |ps| > 0 {
      FillBind(ps[1..], vars, pad);
      if ps[0].Slot? && ps[0].name != vars[0].0 {
        assert Assoc.Get(vars, ps[0].name) == Assoc.Get(vars[1..], ps[0].name);
      }
    }
  }

  /** One pass of `replaceAll` over a well-formed template binds that variable. */
  lemma {:induction false} OnePass(ps: seq<Piece>, x: string, w: string)
    requires WellFormed(ps) && IsVariableName(x) && NoChar(w, '{')
    ensures ReplaceAll(Spell(ps), x, w) == Spell(Bind(ps, x, w))
    ensures WellFormed(Bind(ps, x, w))
  {
    if |ps| > 0 {
      assert WellFormed(ps[1..]) by {
        forall k | 0 <= k < |ps[1..]| ensures WellFormed([ps[1..][k]]) { assert ps[1..][k] == ps[k + 1]; }
        assert forall k :: 0 <= k < |ps[1..]| ==> ps[1..][k] == ps[k + 1];
      }
      OnePass(ps[1..], x, w);
      var rest := Spell(ps[1..]);
      assert WellFormed([ps[0]]);
      match ps[0]
      case Literal(t) =>
        PassThrough(t, rest, x, w);
      case Slot(y, l, t) =>
        if y == x {
          SlotMatches(l, x, t, rest, w);
        } else {
          SlotMisses(l, y, t, rest, x, w);
        }
      var b := Bind(ps, x, w);
      assert forall k :: 1 <= k < |b| ==> b[k] == Bind(ps[1..], x, w)[k - 1];
    }
  }

  /** Text without `{` holds no match and is copied unchanged. */
  lemma {:induction false} PassThrough(t: string, r: string, x: string, w: string)
    requires NoChar(t, '{')
    ensures ReplaceAll(t + r, x, w) == t + ReplaceAll(r, x, w)
  {
    if |t| > 0 {
      var c, u := t[0], t[1..];
      assert t + r == [c] + (u + r);
      calc {
        ReplaceAll(t + r, x, w);
        { CopyLead(c, u + r, x, w); }
        [c] + ReplaceAll(u + r, x, w);
        { PassThrough(u, r, x, w); }
        [c] + (u + ReplaceAll(r, x, w));
        { assert t == [c] + u; }
        t + ReplaceAll(r, x, w);
      }
    } else {
      assert t + r == r;
    }
  }

  /** A leading character other than `{` is copied by the scan. */
  lemma CopyLead(c: char, u: string, x: string, w: string)
    requires c != '{'
    ensures ReplaceAll([c] + u, x, w) == [c] + ReplaceAll(u, x, w)
  {
    CopyStep([c] + u, x, w);
    assert ([c] + u)[1..] == u;
  }

  /** A character other than `{` starts no match, and the scan copies it. */
  lemma CopyStep(s: string, x: string, w: string)
    requires |s| > 0 && s[0] != '{'
    ensures ReplaceAll(s, x, w) == [s[0]] + ReplaceAll(s[1..], x, w)
  {
    assert !StartsWith(s, "{{") by {
      if |s| >= 2 { assert s[..2][0] == s[0]; }
    }
  }

  /** `SkipWhitespace` stops at the first character that is not white space. */
  lemma SkipWhitespaceAt(s: string, from: nat, n: nat)
    requires from <= n <= |s| && WhitespaceBetween(s, from, n)
    requires n < |s| ==> !IsWhitespace(s[n])
    ensures SkipWhitespace(s, from) == n
    decreases n - from
  {
    if from < n { SkipWhitespaceAt(s, from + 1, n); }
  }

  /** A placeholder of `x` matches, white space inside the braces included. */
  lemma SlotMatches(l: string, x: string, t: string, r: string, w: string)
    requires IsVariableName(x) && AllWhitespace(l) && AllWhitespace(t)
    ensures ReplaceAll(Placeholder(l, x, t) + r, x, w) == w + ReplaceAll(r, x, w)
  {
    var p := Placeholder(l, x, t);
    SlotMatchLength(l, x, t, r);
    assert (p + r)[|p|..] == r;
  }

  /** The match of a placeholder of `x` covers exactly the placeholder. */
  lemma SlotMatchLength(l: string, x: string, t: string, r: string)
    requires IsVariableName(x) && AllWhitespace(l) && AllWhitespace(t)
    ensures MatchLength(Placeholder(l, x, t) + r, x) == Some(|Placeholder(l, x, t)|)
  {
    var s := Placeholder(l, x, t) + r;
    var i := 2 + |l|;
    var j := i + |x| + |t|;
    SlotLayout(l, x, t, r);
    assert StartsWith(s, "{{") by { assert s[..2] == "{{"; }
    SkipWhitespaceAt(s, 2, i);
    assert OccursAt(s, x, i) by { assert s[i..i + |x|] == x; }
    SkipWhitespaceAt(s, i + |x|, j);
    assert OccursAt(s, "}}", j) by { assert s[j..j + 2] == "}}"; }
    MatchAt(s, x, i, j);
  }

  lemma MatchAt(s: string, x: string, i: nat, j: nat)
    requires StartsWith(s, "{{") && 2 <= |s| && SkipWhitespace(s, 2) == i
    requires OccursAt(s, x, i) && SkipWhitespace(s, i + |x|) == j && OccursAt(s, "}}", j)
    ensures MatchLength(s, x) == Some(j + 2)
  {
  }

  /** A placeholder of another variable does not match, and is copied unchanged. */
  lemma SlotMisses(l: string, y: string, t: string, r: string, x: string, w: string)
    requires IsVariableName(x) && IsVariableName(y) && x != y
    requires AllWhitespace(l) && AllWhitespace(t)
    ensures ReplaceAll(Placeholder(l, y, t) + r, x, w) == Placeholder(l, y, t) + ReplaceAll(r, x, w)
  {
    var body := l + y + t + "}}";
    var u := body + r;
    SlotBodyNoBrace(l, y, t);
    assert Placeholder(l, y, t) + r == ['{'] + (['{'] + u);
    OtherSlotNoMatch(l, y, t, r, x);
    calc {
      ReplaceAll(Placeholder(l, y, t) + r, x, w);
      { CopyFirst('{', ['{'] + u, x, w); }
      ['{'] + ReplaceAll(['{'] + u, x, w);
      { assert u[0] == body[0]; BraceNotDoubled(u, x, w); }
      ['{'] + (['{'] + ReplaceAll(u, x, w));
      { PassThrough(body, r, x, w); }
      ['{'] + (['{'] + (body + ReplaceAll(r, x, w)));
      { assert Placeholder(l, y, t) == ['{'] + (['{'] + body); }
      Placeholder(l, y, t) + ReplaceAll(r, x, w);
    }
  }

  /** Where the scan finds no match it copies one character. */
  lemma CopyFirst(c: char, u: string, x: string, w: string)
    requires MatchLength([c] + u, x) == None
    ensures ReplaceAll([c] + u, x, w) == [c] + ReplaceAll(u, x, w)
  {
    assert ([c] + u)[1..] == u;
  }

  /** A single `{` starts no match. */
  lemma BraceNotDoubled(u: string, x: string, w: string)
    requires |u| > 0 && u[0] != '{'
    ensures ReplaceAll(['{'] + u, x, w) == ['{'] + ReplaceAll(u, x, w)
  {
    var s := ['{'] + u;
    assert s[1] == u[0];
    assert !StartsWith(s, "{{") by { assert s[..2][1] == s[1]; }
    CopyFirst('{', u, x, w);
  }

  /** The part of a placeholder after its opening braces holds no `{`, and starts with
      white space or a letter. */
  lemma SlotBodyNoBrace(l: string, y: string, t: string)
    requires IsVariableName(y) && AllWhitespace(l) && AllWhitespace(t)
    ensures NoChar(l + y + t + "}}", '{')
  {
    var body := l + y + t + "}}";
    forall k | 0 <= k < |body| ensures body[k] != '{' {
      if k < |l| { assert body[k] == l[k]; }
      else if k < |l| + |y| { assert body[k] == y[k - |l|]; }
      else if k < |l| + |y| + |t| { assert body[k] == t[k - |l| - |y|]; }
    }
  }

  lemma OtherSlotNoMatch(l: string, y: string, t: string, r: string, x: string)
    requires IsVariableName(x) && IsVariableName(y) && x != y
    requires AllWhitespace(l) && AllWhitespace(t)
    ensures MatchLength(Placeholder(l, y, t) + r, x) == None
  {
    var s := Placeholder(l, y, t) + r;
    var i := 2 + |l|;
    SlotLayout(l, y, t, r);
    SkipWhitespaceAt(s, 2, i);
    if OccursAt(s, x, i) {
      assert !IsAsciiLetter(s[i + |y|]) by {
        if |t| > 0 { assert s[i + |y|] == t[0]; }
      }
      NameInsideName(s, i, x, y);
      SkipWhitespaceAt(s, i + |x|, i + |x|);
      assert s[i + |x|] != '}';
    }
  }

  /** A variable name found where another name stands, followed by a non-letter, is a
      proper prefix of it: the character after it is still a letter. */
  lemma NameInsideName(s: string, i: nat, x: string, y: string)
    requires IsVariableName(x) && IsVariableName(y) && x != y
    requires i + |y| < |s| && !IsAsciiLetter(s[i + |y|])
    requires forall k :: 0 <= k < |y| ==> s[i + k] == y[k]
    requires OccursAt(s, x, i)
    ensures |x| < |y| && IsAsciiLetter(s[i + |x|])
  {
    assert forall k :: 0 <= k < |x| ==> x[k] == s[i + k];
    assert |x| == |y| ==> x == y;
    assert s[i + |x|] == y[|x|];
  }

  /** Where the parts of a placeholder sit in the text. */
  lemma SlotLayout(l: string, y: string, t: string, r: string)
    ensures var s := Placeholder(l, y, t) + r;
      && s[0] == '{' && s[1] == '{'
      && (forall k :: 0 <= k < |l| ==> s[2 + k] == l[k])
      && (forall k :: 0 <= k < |y| ==> s[2 + |l| + k] == y[k])
      && (forall k :: 0 <= k < |t| ==> s[2 + |l| + |y| + k] == t[k])
      && s[2 + |l| + |y| + |t|] == '}'
  {
  }

  /** The template every generated type name is built from unless configured otherwise. */
  const DefaultNamePieces: seq<Piece> := [Slot("parentNodeNames", "", ""), Slot("typeName", "", "")]

  lemma DefaultNamePiecesSpelling()
    ensures WellFormed(DefaultNamePieces)
    ensures Spell(DefaultNamePieces) == "{{parentNodeNames}}{{typeName}}"
  {
    DefaultNamesAreVariables();
    var a, b := Slot("parentNodeNames", "", ""), Slot("typeName", "", "");
    SpellCons(a, [b]);
    SpellCons(b, []);
    DefaultPlaceholders();
  }

  lemma DefaultPlaceholders()
    ensures Placeholder("", "parentNodeNames", "") + Placeholder("", "typeName", "")
         == "{{parentNodeNames}}{{typeName}}"
  {
    assert Placeholder("", "typeName", "") == "{{typeName}}";
    assert Placeholder("", "parentNodeNames", "") == "{{parentNodeNames}}";
  }

  lemma DefaultNamesAreVariables()
    ensures IsVariableName("parentNodeNames") && IsVariableName("typeName")
  {
  }

  lemma SpellCons(p: Piece, ps: seq<Piece>)
    ensures Spell([p] + ps) == Spell([p]) + Spell(ps)
    ensures Spell([p]) == match p case Literal(t) => t case Slot(x, l, t) => Placeholder(l, x, t)
  {
    assert ([p] + ps)[1..] == ps;
    assert [p][1..] == [];
  }
}
