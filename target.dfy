/** The `Target` record handed from the extractor to every consumer (src/target.rs). */
module Targets {
  import opened Wrappers
  import opened Files

  /** A variable a target's recipe needs, with an optional `a|b|c` hint of values. */
  datatype RequiredVar = RequiredVar(name: string, hint: Option<string>)

  /** One invocable target; `line` is 1-based. */
  datatype Target = Target(
    name: string,
    description: Option<string>,
    file: Path,
    line: nat,
    requiredVars: seq<RequiredVar>)

  /** `Target::new`: no required variables. */
  function New(name: string, description: Option<string>, file: Path, line: nat): (t: Target)
    ensures t.name == name && t.description == description && t.file == file && t.line == line
    ensures t.requiredVars == []
    ensures !HasRequiredVars(t)
  {
    Target(name, description, file, line, [])
  }

  /** `Target::with_required_vars`: the variables are kept as given. */
  function WithRequiredVars(name: string, description: Option<string>, file: Path, line: nat,
                            requiredVars: seq<RequiredVar>): (t: Target)
    ensures t.name == name && t.description == description && t.file == file && t.line == line
    ensures t.requiredVars == requiredVars
    ensures HasRequiredVars(t) <==> requiredVars != []
  {
    Target(name, description, file, line, requiredVars)
  }

  predicate HasRequiredVars(t: Target) {
    t.requiredVars != []
  }

  /** The text shown for a target in the picker: its name alone. */
  function DisplayName(t: Target): (s: string)
    ensures s == t.name
  {
    t.name
  }

  /** A name that starts with `_` marks a helper target. */
  predicate IsPrivateName(name: string) {
    |name| > 0 && name[0] == '_'
  }

  predicate IsPrivate(t: Target) {
    IsPrivateName(t.name)
  }

  /** `Display`: `name - description`, or the bare name. */
  function Display(t: Target): (s: string)
    ensures t.description.None? ==> s == t.name
    ensures t.description.Some? ==>
              |s| == |t.name| + 3 + |t.description.value| &&
              s[..|t.name|] == t.name && s[|t.name|..] == " - " + t.description.value
  {
    match t.description
    case Some(d) => t.name + " - " + d
    case None => t.name
  }

  /** The display text begins with the name, and is longer exactly when there is a description. */
  lemma {:induction false} DisplayStartsWithName(t: Target)
    ensures |t.name| <= |Display(t)| && Display(t)[..|t.name|] == t.name
    ensures t.description.Some? <==> |Display(t)| > |t.name|
  {
  }

  /** `Target::new` and the five properties its unit test checks. */
  lemma {:induction false} NewExample()
    ensures var t := New("build", Some("Build the project"), "Makefile", 10);
            t.name == "build" && t.description == Some("Build the project") && t.file == "Makefile"
            && t.line == 10 && !HasRequiredVars(t)
  {
  }

  lemma {:induction false} IsPrivateExample()
    ensures IsPrivate(New("_internal", None, "Makefile", 1))
    ensures !IsPrivate(New("build", None, "Makefile", 1))
  {
  }
}
