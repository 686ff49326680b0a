/** The text both migration wizards print, in the parts they share, and how
    a wizard renders its menu: the text with each placeholder replaced in
    turn by a chained `replaceAll`. */
module HelpText {
  import opened Wrappers
  import opened Text

  /** The wipe warning and step 1. */
  const Warning: seq<Line> := [
    Text(["[!] ", "Existing ", "data in ", "the ", "database ", "will be ", "wiped. ", "[!]\n"]),
    Text(["\n"]),
    Text(["STEP 1] ", "Please ", "ensure no ", "players ", "are on ", "any ", "servers.\n"]),
    Text(["\n"])
  ]

  /** The first line of step 2. */
  const StepTwo: seq<Line> := [
    Text(["STEP 2] ", "HuskSync ", "will need ", "to ", "connect ", "to the ", "database\n"])
  ]

  /** The lines that introduce the `set` command. */
  const CorrectionPrompt: seq<Line> := [
    Text(["If any of ", "these are ", "not ", "correct, ", "please ", "correct ", "them\n"]),
    Text(["using the ", "command:\n"])
  ]

  /** The first half of step 3. */
  const StepThree: seq<Line> := [
    Text(["\n"]),
    Text(["STEP 3] ", "HuskSync ", "will ", "migrate ", "data into ", "the ", "database\n"]),
    Text(["tables ", "configures ", "in the ", "config.yml ", "file of ", "this\n"])
  ]

  /** The rest of step 3. */
  const StepThreeEnd: seq<Line> := [
    Text(["server. ", "Please ", "make sure ", "you're ", "happy ", "with ", "this\n"]),
    Text(["before ", "proceeding.\n"])
  ]

  /** Step 4, up to the start command itself. */
  const StepFour: seq<Line> := [
    Text(["\n"]),
    Text(["STEP 4] ", "To start ", "the ", "migration, ", "please ", "run:\n"])
  ]

  /** `(text).replaceAll(quote(name1), value1).replaceAll(...)...`. */
  function Render(lines: seq<Line>, subs: seq<(string, string)>): string {
    ReplaceEach(Flatten(Expand(lines)), subs)
  }

  /** Rendering as Java runs it: a replacement that `replaceAll` cannot read
      throws, and the exception ends the chain; readable values are
      rendered as what they read as. */
  function JavaRender(lines: seq<Line>, subs: seq<(string, string)>): (r: Result<string>)
    ensures (forall j :: 0 <= j < |subs| ==> LiteralReplacement(subs[j].1)) ==>
      r == Success(Render(lines, subs))
    ensures Readable(subs) ==> r == Success(Render(lines, ReadValues(subs)))
  {
    JavaReplaceEach(Flatten(Expand(lines)), subs)
  }

  /** A setting whose value `replaceAll` cannot read makes rendering throw,
      provided the earlier replacements were literal and left its
      placeholder in place. */
  lemma JavaRenderThrows(lines: seq<Line>, subs: seq<(string, string)>, k: int, i: int)
    requires SafeSubstitutions(subs)
    requires 0 <= k < |lines| && lines[k].Setting?
    requires 0 <= i < |subs| && subs[i].0 == lines[k].name
    requires forall j :: 0 <= j < i ==> subs[j].0 != subs[i].0 && LiteralReplacement(subs[j].1)
    requires ExpandReplacement(subs[i].1, Placeholder(subs[i].0)).Failure?
    ensures JavaRender(lines, subs).Failure?
  {
    var t := Expand(lines);
    var before := subs[..i];
    JavaReplaceEachSplit(Flatten(t), subs, i);
    ReplaceEachInstantiates(t, before);
    EnvOfMissing(before, subs[i].0);
    ExpandKeepsPlaceholder(lines, k, EnvOf(before));
    var s := ReplaceEach(Flatten(t), before);
    assert subs[i..][0] == subs[i];
    assert JavaReplaceAll(s, Placeholder(subs[i].0), subs[i].1).Failure?;
  }

  /** With values `replaceAll` can read, each setting line shows what its
      value reads as: `\c` as `c`, `$0` as the placeholder itself. */
  lemma JavaRenderShowsSetting(lines: seq<Line>, subs: seq<(string, string)>, k: int, i: int)
    requires Readable(subs) && SafeSubstitutions(ReadValues(subs))
    requires 0 <= k < |lines| && lines[k].Setting?
    requires 0 <= i < |subs| && subs[i].0 == lines[k].name
    requires forall j :: 0 <= j < i ==> subs[j].0 != subs[i].0
    ensures JavaRender(lines, subs).Success?
    ensures Contains(JavaRender(lines, subs).value,
      lines[k].caption + ExpandReplacement(subs[i].1, Placeholder(subs[i].0)).value + "\n")
  {
    RenderShowsSetting(lines, ReadValues(subs), k, i);
  }

  /** Placeholder names a chain can substitute safely, and values that
      cannot be taken for a placeholder by a later replacement. */
  predicate SafeSubstitutions(subs: seq<(string, string)>) {
    forall j :: 0 <= j < |subs| ==> NameOk(subs[j].0) && '%' !in subs[j].1
  }

  /** Rendering fills each setting with the value of the first substitution
      of its placeholder. */
  lemma RenderFills(lines: seq<Line>, subs: seq<(string, string)>)
    requires SafeSubstitutions(subs)
    ensures Render(lines, subs) == Instantiate(Expand(lines), EnvOf(subs))
  {
    ReplaceEachInstantiates(Expand(lines), subs);
  }

  /** A setting line shows its caption, the value substituted for its
      placeholder, and the end of the line, together. */
  lemma RenderShowsSetting(lines: seq<Line>, subs: seq<(string, string)>, k: int, i: int)
    requires SafeSubstitutions(subs)
    requires 0 <= k < |lines| && lines[k].Setting?
    requires 0 <= i < |subs| && subs[i].0 == lines[k].name
    requires forall j :: 0 <= j < i ==> subs[j].0 != subs[i].0
    ensures Contains(Render(lines, subs), lines[k].caption + subs[i].1 + "\n")
  {
    RenderFills(lines, subs);
    EnvOfDistinct(subs, i);
    ExpandShowsSetting(lines, k, EnvOf(subs));
  }
}
