/** String operations the migrators rely on: Java's `String.toLowerCase` on
    parameter names and `String.replaceAll(Pattern.quote(p), v)`, which
    replaces every occurrence of the literal `p`, scanning left to right
    without overlaps, by `v` read as a replacement string, and throws when
    `v` cannot be read as one. */
module Text {
  import opened Wrappers

  /** Lower-cases one ASCII letter and leaves every other character alone. */
  function LowerChar(c: char): (r: char)
    ensures 'A' <= c <= 'Z' ==> 'a' <= r <= 'z' && r as int - c as int == 32
    ensures !('A' <= c <= 'Z') ==> r == c
  {
    if 'A' <= c <= 'Z' then (c as int + 32) as char else c
  }

  /** `String.toLowerCase` restricted to ASCII case folding. */
  function Lower(s: string): (r: string)
    ensures |r| == |s|
    ensures forall i :: 0 <= i < |s| ==> r[i] == LowerChar(s[i])
  {
    seq(|s|, i requires 0 <= i < |s| => LowerChar(s[i]))
  }

  /** `pat` occurs in `s` starting at index `i`. */
  predicate MatchAt(s: string, i: nat, pat: string) {
    i + |pat| <= |s| && s[i..i + |pat|] == pat
  }

  /** `x` occurs somewhere in `s`. */
  predicate Contains(s: string, x: string) {
    exists i: nat | i <= |s| :: MatchAt(s, i, x)
  }

  /** Literal replace-all: at each position, if `pat` starts there it is
      replaced by `rep` and scanning resumes after it; otherwise the
      character is kept. */
  function ReplaceAll(s: string, pat: string, rep: string): string
    requires |pat| > 0
    decreases |s|
  {
    if |s| == 0 then []
    else if MatchAt(s, 0, pat) then rep + ReplaceAll(s[|pat|..], pat, rep)
    else [s[0]] + ReplaceAll(s[1..], pat, rep)
  }

  /** A replacement that `replaceAll` inserts as it stands: Java reads `$`
      in a replacement as a group reference and `\` as an escape. */
  predicate LiteralReplacement(v: string) {
    '$' !in v && '\\' !in v
  }

  // ---------------------------------------------------------------------
  // How `replaceAll` reads its replacement
  // ---------------------------------------------------------------------

  /** The replacement string with every leading `0` removed. */
  function DropZeros(s: string): (r: string)
    ensures |r| <= |s| && r == s[|s| - |r|..]
    ensures r == [] || r[0] != '0'
    decreases |s|
  {
    if s != [] && s[0] == '0' then DropZeros(s[1..]) else s
  }

  /** An ASCII letter or digit, the characters of a group name. */
  predicate AsciiAlnum(c: char) {
    'a' <= c <= 'z' || 'A' <= c <= 'Z' || '0' <= c <= '9'
  }

  /** The longest prefix of `s` made of ASCII letters and digits: the group
      name after `${`. */
  function GroupName(s: string): (r: string)
    ensures |r| <= |s| && r == s[..|r|]
    ensures forall i :: 0 <= i < |r| ==> AsciiAlnum(r[i])
    ensures |r| < |s| ==> !AsciiAlnum(s[|r|])
    decreases |s|
  {
    if s != [] && AsciiAlnum(s[0]) then [s[0]] + GroupName(s[1..]) else []
  }

  /** The exception a named reference `${...}` throws when the pattern has no
      named groups; `s` is what follows the `${`. An empty name, a name not
      closed by `}` (the end of the replacement included) and a name starting
      with a digit are rejected before the lookup. */
  function NamedGroupError(s: string): string {
    var name := GroupName(s);
    if name == [] then "named capturing group has 0 length name"
    else if |name| == |s| || s[|name|] != '}' then "named capturing group is missing trailing '}'"
    else if '0' <= name[0] <= '9' then "capturing group name {" + name + "} starts with digit character"
    else "No group with name {" + name + "}"
  }

  /** `Matcher.appendReplacement` for a pattern without capturing groups, as
      `Pattern.quote` produces: `\c` stands for `c`, `$0` (followed by any
      further zeros) for the matched text; a trailing `\`, a `$` at the end,
      `${...}`, a `$` before a non-digit and a reference to group 1 to 9
      throw, each with the message the JDK gives. */
  function ExpandReplacement(rep: string, matched: string): (r: Result<string>)
    decreases |rep|
  {
    if rep == [] then Success("")
    else if rep[0] == '\\' then
      if |rep| == 1 then Failure("character to be escaped is missing")
      else
        var rest :- ExpandReplacement(rep[2..], matched);
        Success([rep[1]] + rest)
    else if rep[0] == '$' then
      if |rep| == 1 then Failure("Illegal group reference: group index is missing")
      else if rep[1] == '{' then Failure(NamedGroupError(rep[2..]))
      else if !('0' <= rep[1] <= '9') then Failure("Illegal group reference")
      else if rep[1] != '0' then Failure("No group " + [rep[1]])
      else
        var rest :- ExpandReplacement(DropZeros(rep[2..]), matched);
        Success(matched + rest)
    else
      var rest :- ExpandReplacement(rep[1..], matched);
      Success([rep[0]] + rest)
  }

  /** A replacement without `$` and `\` is inserted as it stands. */
  lemma {:induction false} LiteralExpandsToItself(rep: string, matched: string)
    ensures LiteralReplacement(rep) ==> ExpandReplacement(rep, matched) == Success(rep)
    decreases |rep|
  {
    if rep != [] && LiteralReplacement(rep) {
      assert LiteralReplacement(rep[1..]) by {
        assert forall c :: c in rep[1..] ==> c in rep;
      }
      LiteralExpandsToItself(rep[1..], matched);
      assert [rep[0]] + rep[1..] == rep;
    }
  }

  /** Values a user could type that throw: a `$` before a letter, a
      trailing `\\` and a reference to group 1. */
  lemma ThrowingReplacements(matched: string)
    ensures ExpandReplacement("my$db", matched) == Failure("Illegal group reference")
    ensures ExpandReplacement("pa\\", matched) == Failure("character to be escaped is missing")
    ensures ExpandReplacement("$1", matched) == Failure("No group 1")
  {
    assert "my$db"[1..] == "y$db" && "y$db"[1..] == "$db";
    assert "pa\\"[1..] == "a\\" && "a\\"[1..] == "\\";
  }

  /** An escaped `$` is kept. */
  lemma EscapedDollar(matched: string)
    ensures ExpandReplacement("a\\$b", matched) == Success("a$b")
  {
    assert "a\\$b"[1..] == "\\$b" && "\\$b"[2..] == "b" && "b"[1..] == "";
    assert ExpandReplacement("b", matched) == Success(['b'] + "");
    assert ExpandReplacement("\\$b", matched) == Success(['$'] + (['b'] + ""));
    assert ['a'] + (['$'] + (['b'] + "")) == "a$b";
  }

  /** A named reference `${...}` throws: the pattern has no named group. */
  lemma NamedGroupMissing(matched: string)
    ensures ExpandReplacement("${db}", matched) == Failure("No group with name {db}")
  {
    var rep := "${db}";
    assert rep[0] == '$' && rep[1] == '{' && rep[2..] == "db}";
    assert "db}"[1..] == "b}" && "b}"[1..] == "}";
    assert GroupName("db}") == "db";
  }

  /** `${` with no name after it throws before any lookup. */
  lemma EmptyGroupName(matched: string)
    ensures ExpandReplacement("${", matched) == Failure("named capturing group has 0 length name")
  {
    assert "${"[2..] == "";
  }

  /** A name that the replacement ends in, without `}`, throws before any
      lookup. */
  lemma UnclosedGroupName(matched: string)
    ensures ExpandReplacement("${db", matched) == Failure("named capturing group is missing trailing '}'")
  {
    var rep := "${db";
    assert rep[0] == '$' && rep[1] == '{' && rep[2..] == "db";
    assert "db"[1..] == "b" && "b"[1..] == "";
    assert GroupName("db") == "db";
  }

  /** A name starting with a digit throws before any lookup. */
  lemma DigitGroupName(matched: string)
    ensures ExpandReplacement("${1}", matched) ==
      Failure("capturing group name {" + "1" + "} starts with digit character")
  {
    var rep := "${1}";
    assert rep[0] == '$' && rep[1] == '{' && rep[2..] == "1}";
    assert "1}"[1..] == "}";
    assert GroupName("1}") == "1" && "1"[0] == '1';
  }

  /** Leading zeros are dropped up to the first other character. */
  lemma {:induction false} DropZerosOfZeros(n: nat, rest: string)
    requires rest == [] || rest[0] != '0'
    ensures DropZeros(seq(n, _ => '0') + rest) == rest
    decreases n
  {
    var s := seq(n, _ => '0') + rest;
    if n > 0 {
      assert s[0] == '0';
      assert s[1..] == seq(n - 1, _ => '0') + rest;
      DropZerosOfZeros(n - 1, rest);
    } else {
      assert s == rest;
    }
  }

  /** `$0`, with any further zeros, repeats the matched text; reading goes
      on with what follows the zeros. */
  lemma GroupZero(n: nat, rest: string, matched: string)
    requires rest == [] || rest[0] != '0'
    ensures var after := ExpandReplacement(rest, matched);
      ExpandReplacement("$0" + seq(n, _ => '0') + rest, matched) ==
        if after.Success? then Success(matched + after.value) else after
  {
    var rep := "$0" + seq(n, _ => '0') + rest;
    assert rep[0] == '$' && rep[1] == '0';
    assert rep[2..] == seq(n, _ => '0') + rest;
    DropZerosOfZeros(n, rest);
    assert |rep| > 1 && rep[0] != '\\' && rep[1] != '{' && '0' <= rep[1] <= '9';
    var after := ExpandReplacement(rest, matched);
    assert ExpandReplacement(rep, matched) ==
      if after.Success? then Success(matched + after.value) else Failure(after.error);
  }

  /** `s.replaceAll(Pattern.quote(pat), rep)`: the replacement is read only
      when `pat` occurs, so a string without it comes back unchanged even
      if reading `rep` would throw. Every occurrence is replaced by what the
      replacement reads as, and the exception is the one reading throws. */
  function JavaReplaceAll(s: string, pat: string, rep: string): (r: Result<string>)
    requires |pat| > 0
    ensures r.Failure? <==> Contains(s, pat) && ExpandReplacement(rep, pat).Failure?
    ensures r.Failure? ==> r.error == ExpandReplacement(rep, pat).error
    ensures !Contains(s, pat) ==> r == Success(s)
    ensures ExpandReplacement(rep, pat).Success? ==>
      r == Success(ReplaceAll(s, pat, ExpandReplacement(rep, pat).value))
    ensures LiteralReplacement(rep) ==> r == Success(ReplaceAll(s, pat, rep))
  {
    if !Contains(s, pat) then
      assert forall i: nat :: !MatchAt(s, i, pat) by {
        forall i: nat ensures !MatchAt(s, i, pat) {
          if i <= |s| { assert !MatchAt(s, i, pat); }
        }
      }
      ReplaceAllWithoutMatch(s, pat, rep);
      var x := ExpandReplacement(rep, pat);
      ReplaceAllWithoutMatch(s, pat, if x.Success? then x.value else rep);
      Success(s)
    else
      LiteralExpandsToItself(rep, pat);
      var e :- ExpandReplacement(rep, pat);
      Success(ReplaceAll(s, pat, e))
  }

  /** A prefix of `s` in which `pat` starts nowhere is copied unchanged. */
  lemma {:induction false} ReplaceAllSkipsPrefix(s: string, k: nat, pat: string, rep: string)
    requires |pat| > 0 && k <= |s|
    requires forall i: nat :: i < k ==> !MatchAt(s, i, pat)
    ensures ReplaceAll(s, pat, rep) == s[..k] + ReplaceAll(s[k..], pat, rep)
  {
    if k == 0 {
      assert s[..0] == [] && s[0..] == s;
    } else {
      assert !MatchAt(s, 0, pat);
      var t := s[1..];
      forall i: nat | i < k - 1
        ensures !MatchAt(t, i, pat)
      {
        assert !MatchAt(s, i + 1, pat);
        if i + |pat| <= |t| {
          assert t[i..i + |pat|] == s[i + 1..i + 1 + |pat|];
        }
      }
      ReplaceAllSkipsPrefix(t, k - 1, pat, rep);
      assert t[k - 1..] == s[k..];
      assert [s[0]] + t[..k - 1] == s[..k];
    }
  }

  /** A string in which `pat` never occurs is left unchanged. */
  lemma ReplaceAllWithoutMatch(s: string, pat: string, rep: string)
    requires |pat| > 0
    requires forall i: nat :: !MatchAt(s, i, pat)
    ensures ReplaceAll(s, pat, rep) == s
  {
    ReplaceAllSkipsPrefix(s, |s|, pat, rep);
    assert s[..|s|] == s;
  }

  /** An occurrence of `pat` at the front is replaced by `rep`. */
  lemma ReplaceAllAtMatch(pat: string, rest: string, rep: string)
    requires |pat| > 0
    ensures ReplaceAll(pat + rest, pat, rep) == rep + ReplaceAll(rest, pat, rep)
  {
    var s := pat + rest;
    assert s[..|pat|] == pat;
    assert s[|pat|..] == rest;
  }

  // ---------------------------------------------------------------------
  // Placeholder templates
  // ---------------------------------------------------------------------

  /** A help-menu template: literal text interleaved with named placeholders
      that appear in the source text as `%name%`. */
  datatype Piece = Lit(text: string) | Hole(name: string)

  function Placeholder(name: string): (r: string)
    ensures |r| == |name| + 2 && r[0] == '%' && r[|r| - 1] == '%'
  {
    "%" + name + "%"
  }

  /** The text of one piece when every placeholder named in `env` is filled in. */
  function PieceText(p: Piece, env: map<string, string>): string {
    match p
    case Lit(text) => text
    case Hole(name) => if name in env then env[name] else Placeholder(name)
  }

  /** The text of a template with the placeholders named in `env` filled in;
      the others keep their `%name%` form. */
  function Instantiate(t: seq<Piece>, env: map<string, string>): string
    decreases |t|
  {
    if t == [] then "" else PieceText(t[0], env) + Instantiate(t[1..], env)
  }

  /** The template as it is written in the source, every placeholder unfilled. */
  function Flatten(t: seq<Piece>): string {
    Instantiate(t, map[])
  }

  /** A placeholder name that cannot end a match early: no `%` and no newline. */
  predicate NameOk(name: string) {
    '%' !in name && '\n' !in name
  }

  /** The shape both help menus have: literals never contain `%`, and every
      placeholder is followed by a literal that starts a new line. */
  predicate WellFormed(t: seq<Piece>) {
    && (forall i :: 0 <= i < |t| && t[i].Lit? ==> '%' !in t[i].text)
    && (forall i :: 0 <= i < |t| && t[i].Hole? ==>
          NameOk(t[i].name) && i + 1 < |t| && t[i + 1].Lit?
          && |t[i + 1].text| > 0 && t[i + 1].text[0] == '\n')
  }

  /** Turns every `Hole(name)` into the literal `value`. */
  function Substitute(t: seq<Piece>, name: string, value: string): (r: seq<Piece>)
    ensures |r| == |t|
    ensures forall i :: 0 <= i < |t| ==>
      r[i] == (if t[i] == Hole(name) then Lit(value) else t[i])
  {
    seq(|t|, i requires 0 <= i < |t| => if t[i] == Hole(name) then Lit(value) else t[i])
  }

  /** Chained `replaceAll` calls, one per (name, value), in order, as the
      help menus are rendered. */
  function ReplaceEach(s: string, subs: seq<(string, string)>): string
    decreases |subs|
  {
    if subs == [] then s
    else ReplaceEach(ReplaceAll(s, Placeholder(subs[0].0), subs[0].1), subs[1..])
  }

  /** Every value of the chain can be read as a replacement for its
      placeholder. */
  predicate Readable(subs: seq<(string, string)>) {
    forall j :: 0 <= j < |subs| ==> ExpandReplacement(subs[j].1, Placeholder(subs[j].0)).Success?
  }

  /** Each value replaced by the text `replaceAll` reads it as. */
  function ReadValues(subs: seq<(string, string)>): (r: seq<(string, string)>)
    requires Readable(subs)
    ensures |r| == |subs|
    ensures forall j :: 0 <= j < |subs| ==>
      r[j] == (subs[j].0, ExpandReplacement(subs[j].1, Placeholder(subs[j].0)).value)
  {
    seq(|subs|, j requires 0 <= j < |subs| =>
      (subs[j].0, ExpandReplacement(subs[j].1, Placeholder(subs[j].0)).value))
  }

  /** The same chain as Java runs it: the first replacement that throws
      ends it; when none throws, it is the literal chain of what the values
      read as. */
  function JavaReplaceEach(s: string, subs: seq<(string, string)>): (r: Result<string>)
    ensures (forall j :: 0 <= j < |subs| ==> LiteralReplacement(subs[j].1)) ==>
      r == Success(ReplaceEach(s, subs))
    ensures Readable(subs) ==> r == Success(ReplaceEach(s, ReadValues(subs)))
    decreases |subs|
  {
    if subs == [] then Success(s)
    else
      assert forall j :: 0 <= j < |subs| - 1 ==> subs[1..][j] == subs[j + 1];
      assert Readable(subs) ==> ReadValues(subs)[1..] == ReadValues(subs[1..]);
      var next :- JavaReplaceAll(s, Placeholder(subs[0].0), subs[0].1);
      JavaReplaceEach(next, subs[1..])
  }

  /** While the values are literal, the Java chain runs as the literal one. */
  lemma {:induction false} JavaReplaceEachSplit(s: string, subs: seq<(string, string)>, i: nat)
    requires i <= |subs|
    requires forall j :: 0 <= j < i ==> LiteralReplacement(subs[j].1)
    ensures JavaReplaceEach(s, subs) == JavaReplaceEach(ReplaceEach(s, subs[..i]), subs[i..])
    decreases i
  {
    if i == 0 {
      assert subs[..0] == [] && subs[0..] == subs;
    } else {
      var next := ReplaceAll(s, Placeholder(subs[0].0), subs[0].1);
      assert JavaReplaceAll(s, Placeholder(subs[0].0), subs[0].1) == Success(next);
      assert subs[1..][..i - 1] == subs[..i][1..];
      assert subs[1..][i - 1..] == subs[i..];
      JavaReplaceEachSplit(next, subs[1..], i - 1);
    }
  }

  /** The values the chain puts in: the first substitution of a name wins,
      since it leaves no placeholder for a later one to match. */
  function EnvOf(subs: seq<(string, string)>): map<string, string>
    decreases |subs|
  {
    if subs == [] then map[] else EnvOf(subs[1..])[subs[0].0 := subs[0].1]
  }

  lemma {:induction false} InstantiateAppend(t1: seq<Piece>, t2: seq<Piece>, env: map<string, string>)
    ensures Instantiate(t1 + t2, env) == Instantiate(t1, env) + Instantiate(t2, env)
    decreases |t1|
  {
    if t1 == [] {
      assert t1 + t2 == t2;
    } else {
      assert (t1 + t2)[1..] == t1[1..] + t2;
      InstantiateAppend(t1[1..], t2, env);
    }
  }

  /** One differing character rules out a match. */
  lemma MismatchAt(s: string, i: nat, pat: string, j: nat)
    requires j < |pat| && (i + |pat| <= |s| ==> s[i + j] != pat[j])
    ensures !MatchAt(s, i, pat)
  {
    if i + |pat| <= |s| {
      assert s[i..i + |pat|][j] == s[i + j];
    }
  }

  /** Literal text without `%` cannot hold the start of a placeholder. */
  lemma {:induction false} ReplaceAllSkipsLiteral(lit: string, rest: string, pat: string, rep: string)
    requires |pat| > 0 && pat[0] == '%' && '%' !in lit
    ensures ReplaceAll(lit + rest, pat, rep) == lit + ReplaceAll(rest, pat, rep)
  {
    var s := lit + rest;
    forall i: nat | i < |lit|
      ensures !MatchAt(s, i, pat)
    {
      assert s[i] == lit[i] && lit[i] in lit;
      MismatchAt(s, i, pat, 0);
    }
    ReplaceAllSkipsPrefix(s, |lit|, pat, rep);
    assert s[..|lit|] == lit && s[|lit|..] == rest;
  }

  /** A placeholder with another name, followed by a new line, is not matched,
      neither at its own start nor across its closing `%`. */
  lemma ReplaceAllSkipsOtherPlaceholder(n: string, m: string, rest: string, rep: string)
    requires NameOk(n) && NameOk(m) && n != m
    requires |rest| > 0 && rest[0] == '\n'
    ensures ReplaceAll(Placeholder(n) + rest, Placeholder(m), rep)
         == Placeholder(n) + ReplaceAll(rest, Placeholder(m), rep)
  {
    var key, pat := Placeholder(n), Placeholder(m);
    var s := key + rest;
    forall i: nat | i < |key|
      ensures !MatchAt(s, i, pat)
    {
      if i == 0 {
        if |m| < |n| {
          // pat closes where key still spells its name
          assert s[|m| + 1] == n[|m|] && n[|m|] in n;
          MismatchAt(s, 0, pat, |m| + 1);
        } else if |m| > |n| {
          // key closes where pat still spells its name
          assert s[|n| + 1] == '%' && pat[|n| + 1] == m[|n|] && m[|n|] in m;
          MismatchAt(s, 0, pat, |n| + 1);
        } else {
          var k :| 0 <= k < |n| && n[k] != m[k];
          assert s[k + 1] == n[k] && pat[k + 1] == m[k];
          MismatchAt(s, 0, pat, k + 1);
        }
      } else if i < |key| - 1 {
        assert s[i] == n[i - 1] && n[i - 1] in n;
        MismatchAt(s, i, pat, 0);
      } else {
        // the closing '%' is followed by a new line, which pat never has second
        assert s[i + 1] == rest[0];
        if |m| > 0 {
          assert pat[1] == m[0] && m[0] in m;
        }
        MismatchAt(s, i, pat, 1);
      }
    }
    ReplaceAllSkipsPrefix(s, |key|, pat, rep);
    assert s[..|key|] == key && s[|key|..] == rest;
  }

  /** One `replaceAll` on a well-formed template fills exactly the
      placeholders with that name. */
  lemma {:induction false} ReplaceAllFillsPlaceholder(t: seq<Piece>, name: string, value: string)
    requires WellFormed(t) && NameOk(name) && '%' !in value
    ensures ReplaceAll(Flatten(t), Placeholder(name), value) == Flatten(Substitute(t, name, value))
    decreases |t|
  {
    var pat := Placeholder(name);
    if t != [] {
      var tail := t[1..];
      assert WellFormed(tail) by {
        forall i | 0 <= i < |tail| && tail[i].Hole?
          ensures i + 1 < |tail|
        {
          assert t[i + 1].Hole?;
        }
      }
      ReplaceAllFillsPlaceholder(tail, name, value);
      assert Substitute(t, name, value)[1..] == Substitute(tail, name, value);
      match t[0]
      case Lit(text) =>
        ReplaceAllSkipsLiteral(text, Flatten(tail), pat, value);
      case Hole(n) =>
        if n == name {
          ReplaceAllAtMatch(pat, Flatten(tail), value);
        } else {
          assert t[1].Lit? && t[1].text[0] == '\n';
          assert Flatten(tail) == t[1].text + Flatten(tail[1..]);
          ReplaceAllSkipsOtherPlaceholder(n, name, Flatten(tail), value);
        }
    }
  }

  lemma SubstituteKeepsWellFormed(t: seq<Piece>, name: string, value: string)
    requires WellFormed(t) && '%' !in value
    ensures WellFormed(Substitute(t, name, value))
  {
  }

  lemma {:induction false} InstantiateSubstitute(t: seq<Piece>, name: string, value: string, env: map<string, string>)
    ensures Instantiate(Substitute(t, name, value), env) == Instantiate(t, env[name := value])
    decreases |t|
  {
    if t != [] {
      assert Substitute(t, name, value)[1..] == Substitute(t[1..], name, value);
      InstantiateSubstitute(t[1..], name, value, env);
    }
  }

  /** Rendering by chained literal `replaceAll` equals filling the template's
      placeholders from `EnvOf(subs)`, provided no substituted value holds a
      `%` that a later replacement could match. */
  lemma {:induction false} ReplaceEachInstantiates(t: seq<Piece>, subs: seq<(string, string)>)
    requires WellFormed(t)
    requires forall i :: 0 <= i < |subs| ==> NameOk(subs[i].0) && '%' !in subs[i].1
    ensures ReplaceEach(Flatten(t), subs) == Instantiate(t, EnvOf(subs))
    decreases |subs|
  {
    if subs != [] {
      var (name, value) := subs[0];
      ReplaceAllFillsPlaceholder(t, name, value);
      var t' := Substitute(t, name, value);
      SubstituteKeepsWellFormed(t, name, value);
      ReplaceEachInstantiates(t', subs[1..]);
      InstantiateSubstitute(t, name, value, EnvOf(subs[1..]));
    }
  }

  lemma InstantiateSingle(p: Piece, env: map<string, string>)
    ensures Instantiate([p], env) == PieceText(p, env)
  {
    assert [p][1..] == [];
  }

  /** A string contains each of its infixes. */
  lemma ContainsInfix(pre: string, w: string, post: string)
    ensures Contains(pre + (w + post), w)
  {
    var s := pre + (w + post);
    assert s[|pre|..|pre| + |w|] == w;
    assert MatchAt(s, |pre|, w);
  }

  /** Three pieces, a placeholder between two literals, filled in. */
  lemma InstantiateFramed(x: Piece, y: Piece, z: Piece, env: map<string, string>)
    requires x.Lit? && y.Hole? && z.Lit? && y.name in env
    ensures Instantiate([x, y, z], env) == x.text + env[y.name] + z.text
  {
    InstantiateSingle(x, env);
    InstantiateSingle(y, env);
    InstantiateSingle(z, env);
    InstantiateAppend([y], [z], env);
    InstantiateAppend([x], [y, z], env);
    assert [x] + [y, z] == [x, y, z];
  }

  /** A placeholder framed by two literals shows up in the filled text
      between those literals. */
  lemma InstantiateShowsValue(t: seq<Piece>, env: map<string, string>, i: int)
    requires 0 < i < |t| - 1
    requires t[i - 1].Lit? && t[i].Hole? && t[i + 1].Lit? && t[i].name in env
    ensures Contains(Instantiate(t, env), t[i - 1].text + env[t[i].name] + t[i + 1].text)
  {
    var before, mid, after := t[..i - 1], [t[i - 1], t[i], t[i + 1]], t[i + 2..];
    InstantiateFramed(t[i - 1], t[i], t[i + 1], env);
    InstantiateAppend(mid, after, env);
    InstantiateAppend(before, mid + after, env);
    assert t == before + (mid + after);
    ContainsInfix(Instantiate(before, env), Instantiate(mid, env), Instantiate(after, env));
  }

  // ---------------------------------------------------------------------
  // Templates written line by line
  // ---------------------------------------------------------------------

  /** Literal text that cannot hold a placeholder. */
  type PlainText = s: string | '%' !in s

  /** A placeholder name that cannot end a match early. */
  type Name = s: string | NameOk(s)

  /** One line of a help menu: plain text, or a setting's caption followed
      by its placeholder, which ends the line. A plain line is written as
      short chunks that run together (see `Join`), so that each chunk can be
      seen to be free of `%` on its own. */
  datatype Line = Text(chunks: seq<PlainText>) | Setting(caption: PlainText, name: Name)

  /** Chunks run together; no `%` can arise from joining them. */
  function Join(chunks: seq<PlainText>): (s: PlainText)
    ensures |chunks| == 1 ==> s == chunks[0]
    decreases |chunks|
  {
    if chunks == [] then "" else chunks[0] + Join(chunks[1..])
  }

  /** The pieces of one line. */
  function LinePieces(l: Line): (t: seq<Piece>)
    ensures WellFormed(t)
  {
    match l
    case Text(chunks) => [Lit(Join(chunks))]
    case Setting(caption, name) => [Lit(caption), Hole(name), Lit("\n")]
  }

  lemma WellFormedAppend(a: seq<Piece>, b: seq<Piece>)
    requires WellFormed(a) && WellFormed(b)
    ensures WellFormed(a + b)
  {
    var ab := a + b;
    forall i | 0 <= i < |ab|
      ensures ab[i].Lit? ==> '%' !in ab[i].text
      ensures ab[i].Hole? ==> NameOk(ab[i].name) && i + 1 < |ab| && ab[i + 1].Lit?
                              && |ab[i + 1].text| > 0 && ab[i + 1].text[0] == '\n'
    {
      if i < |a| {
        assert ab[i] == a[i];
        if a[i].Hole? {
          assert ab[i + 1] == a[i + 1];
        }
      } else {
        assert ab[i] == b[i - |a|];
        if b[i - |a|].Hole? {
          assert ab[i + 1] == b[i + 1 - |a|];
        }
      }
    }
  }

  /** The pieces of a template written line by line; every such template
      has the well-formed shape. */
  function Expand(ls: seq<Line>): (t: seq<Piece>)
    ensures WellFormed(t)
    decreases |ls|
  {
    if ls == [] then []
    else
      WellFormedAppend(LinePieces(ls[0]), Expand(ls[1..]));
      LinePieces(ls[0]) + Expand(ls[1..])
  }

  lemma {:induction false} ExpandAppend(a: seq<Line>, b: seq<Line>)
    ensures Expand(a + b) == Expand(a) + Expand(b)
    decreases |a|
  {
    if a == [] {
      assert a + b == b;
    } else {
      assert (a + b)[0] == a[0];
      assert (a + b)[1..] == a[1..] + b;
      ExpandAppend(a[1..], b);
    }
  }

  /** A setting whose placeholder is filled shows its caption, its value and
      the end of its line together. */
  lemma ExpandShowsSetting(ls: seq<Line>, k: int, env: map<string, string>)
    requires 0 <= k < |ls| && ls[k].Setting? && ls[k].name in env
    ensures Contains(Instantiate(Expand(ls), env), ls[k].caption + env[ls[k].name] + "\n")
  {
    var before, after := ls[..k], ls[k + 1..];
    assert ls == before + ([ls[k]] + after);
    ExpandAppend(before, [ls[k]] + after);
    ExpandAppend([ls[k]], after);
    assert [ls[k]][1..] == [];
    var t := Expand(ls);
    var i := |Expand(before)| + 1;
    assert t == Expand(before) + (LinePieces(ls[k]) + Expand(after));
    assert t[i - 1] == Lit(ls[k].caption) && t[i] == Hole(ls[k].name) && t[i + 1] == Lit("\n");
    InstantiateShowsValue(t, env, i);
  }

  /** A name no substitution mentions stays unfilled. */
  lemma {:induction false} EnvOfMissing(subs: seq<(string, string)>, name: string)
    requires forall j :: 0 <= j < |subs| ==> subs[j].0 != name
    ensures name !in EnvOf(subs)
    decreases |subs|
  {
    if subs != [] {
      assert forall j :: 0 <= j < |subs| - 1 ==> subs[1..][j] == subs[j + 1];
      EnvOfMissing(subs[1..], name);
    }
  }

  /** Filling an unfilled placeholder with its own `%name%` text changes nothing. */
  lemma {:induction false} InstantiateWithOwnPlaceholder(t: seq<Piece>, env: map<string, string>, name: string)
    requires name !in env
    ensures Instantiate(t, env[name := Placeholder(name)]) == Instantiate(t, env)
    decreases |t|
  {
    if t != [] {
      InstantiateWithOwnPlaceholder(t[1..], env, name);
    }
  }

  /** What contains `a + b + c` contains `b`. */
  lemma ContainsMiddle(s: string, a: string, b: string, c: string)
    requires Contains(s, a + b + c)
    ensures Contains(s, b)
  {
    var w := a + b + c;
    var i: nat :| i <= |s| && MatchAt(s, i, w);
    var j := i + |a|;
    forall k | 0 <= k < |b|
      ensures s[j + k] == b[k]
    {
      assert s[j + k] == s[i..i + |w|][|a| + k] == w[|a| + k];
    }
    assert s[j..j + |b|] == b;
    assert MatchAt(s, j, b);
  }

  /** A setting whose placeholder is not filled keeps its `%name%` text. */
  lemma ExpandKeepsPlaceholder(ls: seq<Line>, k: int, env: map<string, string>)
    requires 0 <= k < |ls| && ls[k].Setting? && ls[k].name !in env
    ensures Contains(Instantiate(Expand(ls), env), Placeholder(ls[k].name))
  {
    var name := ls[k].name;
    var env' := env[name := Placeholder(name)];
    ExpandShowsSetting(ls, k, env');
    InstantiateWithOwnPlaceholder(Expand(ls), env, name);
    ContainsMiddle(Instantiate(Expand(ls), env), ls[k].caption, Placeholder(name), "\n");
  }

  /** With pairwise distinct names, each name gets the value paired with it. */
  lemma {:induction false} EnvOfDistinct(subs: seq<(string, string)>, i: int)
    requires 0 <= i < |subs|
    requires forall j :: 0 <= j < i ==> subs[j].0 != subs[i].0
    ensures subs[i].0 in EnvOf(subs) && EnvOf(subs)[subs[i].0] == subs[i].1
    decreases i
  {
    if i > 0 {
      forall j | 0 <= j < i - 1
        ensures subs[1..][j].0 != subs[1..][i - 1].0
      {
        assert subs[1..][j] == subs[j + 1];
      }
      EnvOfDistinct(subs[1..], i - 1);
    }
  }
}
