/**
 * The heuristic Makefile reader of src/makefile.rs: a line classifier that
 * sets variable assignments apart from rule heads, the rule-head pattern
 * `^([A-Za-z0-9._/\-%]+)\s*:`, the description lookup, the per-file parse
 * and the merge of several files.
 */
module Makefile {
  import opened Wrappers
  import opened Text
  import opened Files
  import opened Targets
  import opened TargetList

  /** `ParseOptions`: which filtered-out targets to keep after all. */
  datatype ParseOptions = ParseOptions(includePrivate: bool, includePatterns: bool)

  // ---------------------------------------------------------------------
  // `is_variable_assignment`
  // ---------------------------------------------------------------------

  /** `line.find(op)` succeeds and no `:` occurs before the match. */
  predicate OperatorBeforeColon(line: string, op: string) {
    match IndexOf(line, op)
    case None => false
    case Some(pos) => ':' !in line[..pos]
  }

  /**
   * The bare `=` test: the first `=` is not at the start, is not the second
   * half of `:=`, `+=` or `?=`, is not followed by another `=`, and has no
   * `:` before it.
   */
  predicate BareAssignment(line: string) {
    match IndexOf(line, "=")
    case None => false
    case Some(pos) =>
      && pos > 0
      && line[pos - 1] != ':' && line[pos - 1] != '+' && line[pos - 1] != '?'
      && (pos + 1 >= |line| || line[pos + 1] != '=')
      && ':' !in line[..pos]
  }

  /** `is_variable_assignment`: `VAR := v`, `VAR ?= v`, `VAR += v` or `VAR = v`. */
  predicate IsVariableAssignment(line: string) {
    || OperatorBeforeColon(line, ":=")
    || OperatorBeforeColon(line, "?=")
    || OperatorBeforeColon(line, "+=")
    || BareAssignment(line)
  }

  // ---------------------------------------------------------------------
  // `is_target_specific_variable`
  // ---------------------------------------------------------------------

  /** `c.is_ascii_alphanumeric() || c == '_'`. */
  predicate IsVarNameChar(c: char) {
    ('A' <= c <= 'Z') || ('a' <= c <= 'z') || ('0' <= c <= '9') || c == '_'
  }

  /** The characters that end a candidate variable name. */
  predicate IsDelimiter(c: char) {
    IsSpace(c) || c == ':' || c == '?' || c == '+' || c == '='
  }

  /** `find` with the delimiter predicate on the text from `i` on: the index of the first delimiter. */
  function DelimiterFrom(s: string, i: nat): (r: Option<nat>)
    requires i <= |s|
    ensures r.Some? ==> i <= r.value < |s| && IsDelimiter(s[r.value])
    ensures r.Some? ==> forall k :: i <= k < r.value ==> !IsDelimiter(s[k])
    ensures r.None? ==> forall k :: i <= k < |s| ==> !IsDelimiter(s[k])
    decreases |s| - i
  {
    if i == |s| then None
    else if IsDelimiter(s[i]) then Some(i)
    else DelimiterFrom(s, i + 1)
  }

  /** The text from `i` on starts with `:=`, `?=`, `+=` or `=`. */
  predicate AssignOpAt(s: string, i: nat) {
    OccursAt(s, ":=", i) || OccursAt(s, "?=", i) || OccursAt(s, "+=", i) || OccursAt(s, "=", i)
  }

  /**
   * `is_target_specific_variable`: after the first `:`, left-trimmed, comes
   * a non-empty run of `[A-Za-z0-9_]` ending at the first delimiter, and
   * then, after optional whitespace, an assignment operator. The
   * substrings the source slices off are kept as positions in `line`:
   * the trimmed text after the colon starts at `start`, the delimiter
   * sits at `d`.
   */
  predicate IsTargetSpecificVariable(line: string) {
    match IndexOf(line, ":")
    case None => false
    case Some(c) =>
      var start := SkipSpace(line, c + 1);
      match DelimiterFrom(line, start)
      case None => false
      case Some(d) =>
        && d > start
        && (forall k :: start <= k < d ==> IsVarNameChar(line[k]))
        && AssignOpAt(line, SkipSpace(line, d))
  }

  // ---------------------------------------------------------------------
  // The rule-head pattern `^([A-Za-z0-9._/\-%]+)\s*:`
  // ---------------------------------------------------------------------

  /** The character class `[A-Za-z0-9._/\-%]`. */
  predicate IsNameChar(c: char) {
    ('A' <= c <= 'Z') || ('a' <= c <= 'z') || ('0' <= c <= '9')
    || c == '.' || c == '_' || c == '/' || c == '-' || c == '%'
  }

  /** The end of the run of name characters that starts at `i`. */
  function NameEnd(s: string, i: nat): (n: nat)
    requires i <= |s|
    ensures i <= n <= |s|
    ensures forall k :: i <= k < n ==> IsNameChar(s[k])
    ensures n == |s| || !IsNameChar(s[n])
    decreases |s| - i
  {
    if i < |s| && IsNameChar(s[i]) then NameEnd(s, i + 1) else i
  }

  /**
   * The capture of the rule-head pattern. The class holds no whitespace and
   * no `:`, so the greedy run is the only candidate for group 1.
   */
  function MatchTarget(line: string): (r: Option<string>)
    ensures r.Some? ==> r.value != [] && StartsWith(line, r.value)
    ensures r.Some? ==> forall k :: 0 <= k < |r.value| ==> IsNameChar(r.value[k])
  {
    var n := NameEnd(line, 0);
    var m := SkipSpace(line, n);
    if n > 0 && m < |line| && line[m] == ':' then Some(line[..n]) else None
  }

  // ---------------------------------------------------------------------
  // One line of `parse_makefile_content`
  // ---------------------------------------------------------------------

  predicate IsCommentLine(trimmed: string) {
    trimmed != [] && trimmed[0] == '#'
  }

  datatype LineKind =
    | Blank
    | Comment
    | Assignment         // either assignment predicate accepted the line
    | RuleHead(name: string)
    | Unrecognised

  /** How the parse loop sees a line, in the order of its checks. */
  function Classify(line: string): LineKind {
    var t := Trim(line);
    if t == [] then Blank
    else if IsCommentLine(t) then Comment
    else if IsVariableAssignment(t) || IsTargetSpecificVariable(t) then Assignment
    else
      match MatchTarget(t)
      case Some(name) => RuleHead(name)
      case None => Unrecognised
  }

  /** The pattern and private filters: `%` needs `include_patterns`, a leading `_` needs `include_private`. */
  predicate Admitted(name: string, opts: ParseOptions) {
    && ('%' !in name || opts.includePatterns)
    && (!IsPrivateName(name) || opts.includePrivate)
  }

  /** The name a line declares and the filters let through, if any. */
  function Candidate(line: string, opts: ParseOptions): Option<string> {
    match Classify(line)
    case RuleHead(name) => if Admitted(name, opts) then Some(name) else None
    case _ => None
  }

  // ---------------------------------------------------------------------
  // What the classifier accepts and rejects
  // ---------------------------------------------------------------------

  /** A two-character operator found at `pos` ends in `=` there. */
  lemma {:induction false} OperatorShape(line: string, op: string, pos: nat)
    requires |op| == 2 && op[1] == '=' && OccursAt(line, op, pos)
    ensures pos + 1 < |line| && line[pos] == op[0] && line[pos + 1] == '='
  {
    assert line[pos + 0] == op[0];
  }

  /**
   * Every assignment the first predicate accepts has an `=` with no `:`
   * anywhere before the operator it belongs to.
   */
  lemma {:induction false} AssignmentHasEqualsBeforeColon(line: string)
    requires IsVariableAssignment(line)
    ensures exists q :: 0 < q < |line| && line[q] == '=' && ':' !in line[..q - 1]
  {
    if OperatorBeforeColon(line, ":=") {
      var pos := IndexOf(line, ":=").value;
      OperatorShape(line, ":=", pos);
      assert line[..pos + 1 - 1] == line[..pos];
    } else if OperatorBeforeColon(line, "?=") {
      var pos := IndexOf(line, "?=").value;
      OperatorShape(line, "?=", pos);
      assert line[..pos + 1 - 1] == line[..pos];
    } else if OperatorBeforeColon(line, "+=") {
      var pos := IndexOf(line, "+=").value;
      OperatorShape(line, "+=", pos);
      assert line[..pos + 1 - 1] == line[..pos];
    } else {
      var pos := IndexOf(line, "=").value;
      OccursAtChar(line, '=', pos);
      assert line[..pos - 1] == line[..pos][..pos - 1];
    }
  }

  /**
   * A `:` whose own position and the next one come before every `=` makes
   * the line a rule, not an assignment: `target: VAR := value`.
   */
  lemma {:induction false} RuleColonNotAssignment(line: string, c: nat)
    requires c < |line| && line[c] == ':'
    requires forall j :: 0 <= j < |line| && j <= c + 1 ==> line[j] != '='
    ensures !IsVariableAssignment(line)
  {
    var ops := [":=", "?=", "+="];
    forall k | 0 <= k < 3 ensures !OperatorBeforeColon(line, ops[k]) {
      var r := IndexOf(line, ops[k]);
      if r.Some? {
        OperatorShape(line, ops[k], r.value);
        assert line[..r.value][c] == ':';
      }
    }
    assert !OperatorBeforeColon(line, ":=") && !OperatorBeforeColon(line, "?=") && !OperatorBeforeColon(line, "+=") by {
      assert ops[0] == ":=" && ops[1] == "?=" && ops[2] == "+=";
    }
    var r := IndexOf(line, "=");
    if r.Some? {
      OccursAtChar(line, '=', r.value);
      assert line[..r.value][c] == ':';
    }
  }

  /** Where the `=` of an assignment operator found at `i` sits. */
  function AssignOpEquals(s: string, i: nat): (q: nat)
    requires AssignOpAt(s, i)
    ensures i <= q <= i + 1 && q < |s| && s[q] == '='
  {
    if OccursAt(s, "=", i) then
      assert s[i + 0] == "="[0];
      i
    else if OccursAt(s, ":=", i) then
      OperatorShape(s, ":=", i);
      i + 1
    else if OccursAt(s, "?=", i) then
      OperatorShape(s, "?=", i);
      i + 1
    else
      OperatorShape(s, "+=", i);
      i + 1
  }

  /** Where the first `:` and the assignment operator of a target-specific assignment sit. */
  lemma {:induction false} ScopedAnatomy(line: string) returns (c: nat, start: nat)
    requires IsTargetSpecificVariable(line)
    ensures c < start <= |line| && line[c] == ':' && AssignOpAt(line, start)
  {
    c := IndexOf(line, ":").value;
    OccursAtChar(line, ':', c);
    var a := SkipSpace(line, c + 1);
    var d := DelimiterFrom(line, a).value;
    start := SkipSpace(line, d);
  }

  /** A target-specific assignment has a `:` and, after it, an `=`. */
  lemma {:induction false} TargetSpecificHasColonThenEquals(line: string)
    requires IsTargetSpecificVariable(line)
    ensures exists c, q :: 0 <= c < q < |line| && line[c] == ':' && line[q] == '='
  {
    var c, start := ScopedAnatomy(line);
    var q := AssignOpEquals(line, start);
  }

  /** No `=` anywhere: neither assignment predicate accepts the line. */
  lemma {:induction false} NoEqualsNoAssignment(line: string)
    requires '=' !in line
    ensures !IsVariableAssignment(line) && !IsTargetSpecificVariable(line)
  {
    if IsVariableAssignment(line) {
      AssignmentHasEqualsBeforeColon(line);
    }
    if IsTargetSpecificVariable(line) {
      TargetSpecificHasColonThenEquals(line);
    }
  }

  /** `op` occurs where it was appended. */
  lemma {:induction false} OccursAtSplice(pre: string, op: string, post: string)
    ensures OccursAt(pre + op + post, op, |pre|)
  {
    var line := pre + op + post;
    forall j | 0 <= j < |op| ensures line[|pre| + j] == op[j] {
    }
  }

  /** No character of a variable name or of whitespace starts an assignment operator or is a `:`. */
  lemma {:induction false} NameAndSpaceHoldNoOperator(name: string, ws: string)
    requires forall k :: 0 <= k < |name| ==> IsVarNameChar(name[k])
    requires AllSpace(ws)
    ensures forall k :: 0 <= k < |name + ws| ==> !IsDelimiter((name + ws)[k]) || IsSpace((name + ws)[k])
  {
    var pre := name + ws;
    forall k | 0 <= k < |pre| ensures !IsDelimiter(pre[k]) || IsSpace(pre[k]) {
      if k < |name| {
        assert pre[k] == name[k];
      } else {
        assert pre[k] == ws[k - |name|];
      }
    }
  }

  /** `IDENT ws op value` is recognised as an assignment for each of the four operators. */
  lemma {:induction false} SimpleAssignmentRecognised(name: string, ws: string, op: string, value: string)
    requires name != [] && forall k :: 0 <= k < |name| ==> IsVarNameChar(name[k])
    requires AllSpace(ws)
    requires op == ":=" || op == "?=" || op == "+=" || op == "="
    requires op == "=" ==> value == [] || value[0] != '='
    ensures IsVariableAssignment(name + ws + op + value)
  {
    var pre := name + ws;
    var line := pre + op + value;
    NameAndSpaceHoldNoOperator(name, ws);
    assert op[0] !in pre && ':' !in pre;
    IndexOfSplice(pre, op, value);
    assert line[..|pre|] == pre;
    if op == "=" {
      assert line[|pre| - 1] == pre[|pre| - 1];
      assert line[|pre|] == '=';
      if |pre| + 1 < |line| {
        assert line[|pre| + 1] == value[0];
      }
      assert BareAssignment(line);
    } else {
      assert OperatorBeforeColon(line, op);
    }
  }

  lemma {:induction false} FirstColonAt(target: string, rest: string)
    requires ':' !in target
    ensures IndexOf(target + ":" + rest, ":") == Some(|target|)
  {
    var line := target + ":" + rest;
    IndexOfCharSpec(line, ':');
    var c := IndexOf(line, ":").value;
    assert OccursAt(line, ":", |target|) by { OccursAtChar(line, ':', |target|); }
    OccursAtChar(line, ':', c);
    assert forall j :: 0 <= j < |target| ==> line[j] == target[j];
  }

  /** The first delimiter after a run of variable-name characters is the one that ends it. */
  lemma {:induction false} DelimiterSplice(pre: string, v: string, post: string)
    requires forall k :: 0 <= k < |v| ==> IsVarNameChar(v[k])
    requires post != [] && IsDelimiter(post[0])
    ensures DelimiterFrom(pre + v + post, |pre|) == Some(|pre| + |v|)
    ensures forall k :: |pre| <= k < |pre| + |v| ==> IsVarNameChar((pre + v + post)[k])
  {
    var s := pre + v + post;
    forall k | |pre| <= k < |pre| + |v| ensures IsVarNameChar(s[k]) && !IsDelimiter(s[k]) {
      assert s[k] == v[k - |pre|];
    }
    assert s[|pre| + |v|] == post[0];
  }

  /** `target: VAR op value`, with any spacing, is a target-specific assignment. */
  lemma {:induction false} ScopedAssignmentRecognised(target: string, ws1: string, v: string, ws2: string, op: string, value: string)
    requires ':' !in target
    requires AllSpace(ws1) && AllSpace(ws2)
    requires v != [] && forall k :: 0 <= k < |v| ==> IsVarNameChar(v[k])
    requires op == ":=" || op == "?=" || op == "+=" || op == "="
    ensures IsTargetSpecificVariable(target + ":" + (ws1 + (v + (ws2 + (op + value)))))
  {
    var line := target + ":" + (ws1 + (v + (ws2 + (op + value))));
    FirstColonAt(target, ws1 + (v + (ws2 + (op + value))));
    var a := ScopedSkipsFirstSpace(line, target, ws1, v + (ws2 + (op + value)));
    var d := ScopedFindsDelimiter(line, target, ws1, v, ws2 + (op + value), a);
    var st := ScopedSkipsSecondSpace(line, target, ws1, v, ws2, op + value, d);
    ScopedFindsOperator(line, target, ws1, v, ws2, op, value, st);
    TargetSpecificIntro(line, |target|, a, d, st);
  }

  /** The whitespace after the colon of `target: ...` is skipped up to what follows it. */
  lemma {:induction false} ScopedSkipsFirstSpace(line: string, target: string, ws1: string, rest: string) returns (a: nat)
    requires line == target + ":" + (ws1 + rest)
    requires AllSpace(ws1) && (rest == [] || !IsSpace(rest[0]))
    ensures a == |target| + 1 + |ws1| && SkipSpace(line, |target| + 1) == a
  {
    ConcatAssoc(target + ":", ws1, rest);
    SkipSpaceSplice(target + ":", ws1, rest);
    a := |target| + 1 + |ws1|;
  }

  /** The variable name after it ends at the delimiter that follows it. */
  lemma {:induction false} ScopedFindsDelimiter(line: string, target: string, ws1: string, v: string, rest: string, a: nat)
      returns (d: nat)
    requires line == target + ":" + (ws1 + (v + rest)) && a == |target| + 1 + |ws1|
    requires v != [] && forall k :: 0 <= k < |v| ==> IsVarNameChar(v[k])
    requires rest != [] && IsDelimiter(rest[0])
    ensures d == a + |v| && a < d <= |line|
    ensures DelimiterFrom(line, a) == Some(d) && forall k :: a <= k < d ==> IsVarNameChar(line[k])
  {
    ConcatAssoc(target + ":", ws1, v + rest);
    ConcatAssoc(target + ":" + ws1, v, rest);
    DelimiterSplice(target + ":" + ws1, v, rest);
    d := a + |v|;
  }

  /** The whitespace after the variable name is skipped up to the operator. */
  lemma {:induction false} ScopedSkipsSecondSpace(line: string, target: string, ws1: string, v: string, ws2: string,
                                                  rest: string, d: nat) returns (st: nat)
    requires line == target + ":" + (ws1 + (v + (ws2 + rest))) && d == |target| + 1 + |ws1| + |v|
    requires AllSpace(ws2) && (rest == [] || !IsSpace(rest[0]))
    ensures st == d + |ws2| && SkipSpace(line, d) == st
  {
    ConcatAssoc(target + ":", ws1, v + (ws2 + rest));
    ConcatAssoc(target + ":" + ws1, v, ws2 + rest);
    ConcatAssoc(target + ":" + ws1 + v, ws2, rest);
    SkipSpaceSplice(target + ":" + ws1 + v, ws2, rest);
    st := d + |ws2|;
  }

  /** The operator sits where the second run of whitespace ends. */
  lemma {:induction false} ScopedFindsOperator(line: string, target: string, ws1: string, v: string, ws2: string,
                                               op: string, value: string, st: nat)
    requires line == target + ":" + (ws1 + (v + (ws2 + (op + value)))) && st == |target| + 1 + |ws1| + |v| + |ws2|
    requires op == ":=" || op == "?=" || op == "+=" || op == "="
    ensures AssignOpAt(line, st)
  {
    ConcatAssoc(target + ":", ws1, v + (ws2 + (op + value)));
    ConcatAssoc(target + ":" + ws1, v, ws2 + (op + value));
    ConcatAssoc(target + ":" + ws1 + v, ws2, op + value);
    ConcatAssoc(target + ":" + ws1 + v + ws2, op, value);
    OccursAtSplice(target + ":" + ws1 + v + ws2, op, value);
  }

  /** The steps of `is_target_specific_variable`, each taken, make it accept the line. */
  lemma {:induction false} TargetSpecificIntro(line: string, c: nat, a: nat, d: nat, st: nat)
    requires IndexOf(line, ":") == Some(c) && c < |line|
    requires SkipSpace(line, c + 1) == a && a < d <= |line|
    requires DelimiterFrom(line, a) == Some(d) && forall k :: a <= k < d ==> IsVarNameChar(line[k])
    requires SkipSpace(line, d) == st && AssignOpAt(line, st)
    ensures IsTargetSpecificVariable(line)
  {
  }

  /** The rule-head pattern matches a name, optional whitespace and a `:`, and captures the name. */
  lemma {:induction false} MatchTargetRecognised(name: string, ws: string, rest: string)
    requires name != [] && forall k :: 0 <= k < |name| ==> IsNameChar(name[k])
    requires AllSpace(ws)
    ensures MatchTarget(name + (ws + (":" + rest))) == Some(name)
  {
    var line := name + (ws + (":" + rest));
    var n := |name|;
    assert forall k :: 0 <= k < n ==> line[k] == name[k];
    assert forall k :: n <= k < n + |ws| ==> line[k] == ws[k - n];
    assert line[n] == if ws != [] then ws[0] else ':';
    assert NameEnd(line, 0) == n;
    assert line[n + |ws|] == ':';
    assert SkipSpace(line, n) == n + |ws|;
    assert line[..n] == name;
  }

  /** Conversely, a match is always a name, whitespace, a `:` and the rest of the line. */
  lemma {:induction false} MatchTargetShape(line: string)
    requires MatchTarget(line).Some?
    ensures var name := MatchTarget(line).value;
            exists ws, rest :: AllSpace(ws) && line == name + (ws + (":" + rest))
  {
    var n := NameEnd(line, 0);
    var m := SkipSpace(line, n);
    var ws, rest := line[n..m], line[m + 1..];
    assert AllSpace(ws) by {
      forall k | 0 <= k < |ws| ensures IsSpace(ws[k]) {
        assert ws[k] == line[n + k];
      }
    }
    assert line[m..] == ":" + rest;
    assert line[n..] == ws + line[m..];
    assert line == line[..n] + line[n..];
  }

  /** After the first `:` comes a delimiter other than whitespace: no variable name, so not target-specific. */
  lemma {:induction false} NoNameAfterColon(head: string, rest: string)
    requires ':' !in head
    requires rest != [] && IsDelimiter(rest[0]) && !IsSpace(rest[0])
    ensures !IsTargetSpecificVariable(head + (":" + rest))
  {
    FirstColonAt(head, rest);
    assert head + (":" + rest) == head + ":" + rest;
    var line := head + ":" + rest;
    assert line[|head| + 1] == rest[0];
    assert SkipSpace(line, |head| + 1) == |head| + 1;
    assert DelimiterFrom(line, |head| + 1) == Some(|head| + 1);
  }

  /**
   * A trimmed rule head `name ws: deps` whose dependencies hold no `=` is
   * classified as declaring `name`.
   */
  lemma {:induction false} RuleHeadRecognised(name: string, ws: string, deps: string)
    requires name != [] && forall k :: 0 <= k < |name| ==> IsNameChar(name[k])
    requires AllSpace(ws) && '=' !in deps
    requires deps == [] || !IsSpace(deps[|deps| - 1])
    ensures Classify(name + (ws + (":" + deps))) == RuleHead(name)
  {
    var line := name + (ws + (":" + deps));
    RuleHeadTrimmed(name, ws, deps);
    NoEqualsInRuleHead(name, ws, deps);
    NoEqualsNoAssignment(line);
    MatchTargetRecognised(name, ws, deps);
    ClassifiedRuleHead(line, name);
  }

  /** Such a rule head is already trimmed and is not a comment. */
  lemma {:induction false} RuleHeadTrimmed(name: string, ws: string, deps: string)
    requires name != [] && forall k :: 0 <= k < |name| ==> IsNameChar(name[k])
    requires deps == [] || !IsSpace(deps[|deps| - 1])
    ensures var line := name + (ws + (":" + deps));
            Trim(line) == line && line != [] && line[0] != '#'
  {
    var line := name + (ws + (":" + deps));
    assert line[0] == name[0];
    if deps == [] {
      assert line[|line| - 1] == ':';
    } else {
      assert line[|line| - 1] == deps[|deps| - 1];
    }
    TrimIdentity(line);
  }

  /** A trimmed, uncommented line that neither assignment test accepts is classified by the rule-head pattern. */
  lemma {:induction false} ClassifiedRuleHead(line: string, name: string)
    requires Trim(line) == line && line != [] && line[0] != '#'
    requires !IsVariableAssignment(line) && !IsTargetSpecificVariable(line)
    requires MatchTarget(line) == Some(name)
    ensures Classify(line) == RuleHead(name)
  {
  }

  lemma {:induction false} NoEqualsInRuleHead(name: string, ws: string, deps: string)
    requires forall k :: 0 <= k < |name| ==> IsNameChar(name[k])
    requires AllSpace(ws) && '=' !in deps
    ensures '=' !in name + (ws + (":" + deps))
  {
    var line := name + (ws + (":" + deps));
    forall k | 0 <= k < |line| ensures line[k] != '=' {
      if k < |name| {
        assert line[k] == name[k];
      } else if k < |name| + |ws| {
        assert line[k] == ws[k - |name|];
      } else if k > |name| + |ws| {
        assert line[k] == deps[k - |name| - |ws| - 1];
      }
    }
  }

  /**
   * A target-specific assignment such as `build: CC := clang` declares no
   * target even though it starts like a rule head: the assignment checks
   * come first.
   */
  lemma {:induction false} ScopedLineYieldsNoTarget(target: string, ws1: string, v: string, ws2: string, op: string, value: string,
                                 opts: ParseOptions)
    requires target != [] && !IsSpace(target[0]) && target[0] != '#' && ':' !in target
    requires AllSpace(ws1) && AllSpace(ws2)
    requires v != [] && forall k :: 0 <= k < |v| ==> IsVarNameChar(v[k])
    requires op == ":=" || op == "?=" || op == "+=" || op == "="
    requires value == [] || !IsSpace(value[|value| - 1])
    ensures Candidate(target + ":" + (ws1 + (v + (ws2 + (op + value)))), opts) == None
  {
    var line := target + ":" + (ws1 + (v + (ws2 + (op + value))));
    assert line[0] == target[0];
    assert !IsSpace(line[|line| - 1]) by {
      if value == [] { assert line[|line| - 1] == op[|op| - 1]; } else { assert line[|line| - 1] == value[|value| - 1]; }
    }
    TrimIdentity(line);
    assert Trim(line) == line;
    ScopedAssignmentRecognised(target, ws1, v, ws2, op, value);
    assert IsTargetSpecificVariable(line);
    assert !IsCommentLine(line);
    AssignmentLineYieldsNothing(line, opts);
  }

  /** A blank line, a comment, or a line either assignment test accepts declares no target, under any options. */
  lemma {:induction false} AssignmentLineYieldsNothing(line: string, opts: ParseOptions)
    requires var t := Trim(line);
             t == [] || IsCommentLine(t) || IsVariableAssignment(t) || IsTargetSpecificVariable(t)
    ensures !Classify(line).RuleHead? && Candidate(line, opts) == None
  {
  }

  /** No target of the file comes from a blank, comment or assignment line. */
  lemma {:induction false} SkippedLineDeclaresNothing(lines: seq<string>, file: Path, opts: ParseOptions, k: nat)
    requires k < |lines|
    requires var t := Trim(lines[k]);
             t == [] || IsCommentLine(t) || IsVariableAssignment(t) || IsTargetSpecificVariable(t)
    ensures var r := ParseContent(lines, file, opts);
            forall i :: 0 <= i < |r| ==> r[i].line != k + 1
  {
    ParseContentProvenance(lines, file, opts);
    AssignmentLineYieldsNothing(lines[k], opts);
  }

  // ---------------------------------------------------------------------
  // `extract_description`
  // ---------------------------------------------------------------------

  /** The trimmed text after the first `##` of the rule line, when it is not empty. */
  function InlineDescription(line: string): (r: Option<string>)
    ensures r.Some? ==> r.value != [] && !IsSpace(r.value[0]) && !IsSpace(r.value[|r.value| - 1])
  {
    match IndexOf(line, "##")
    case None => None
    case Some(pos) =>
      var d := Trim(Slice(line, pos + 2, |line|));
      if d == [] then None else Some(d)
  }

  /** The index of the first character other than `#` at or after `i`, or `|s|`. */
  function SkipHashes(s: string, i: nat): (n: nat)
    requires i <= |s|
    ensures i <= n <= |s|
    ensures forall k :: i <= k < n ==> s[k] == '#'
    ensures n == |s| || s[n] != '#'
    decreases |s| - i
  {
    if i < |s| && s[i] == '#' then SkipHashes(s, i + 1) else i
  }

  /** `trim_start_matches('#')`. */
  function StripHashes(s: string): (r: string)
    ensures |r| <= |s|
    ensures forall k :: 0 <= k < |r| ==> r[k] == s[|s| - |r| + k]
    ensures forall k :: 0 <= k < |s| - |r| ==> s[k] == '#'
    ensures r == [] || r[0] != '#'
  {
    Slice(s, SkipHashes(s, 0), |s|)
  }

  /** The text of a trimmed comment line: leading `#`s dropped, then trimmed. */
  function CommentText(trimmed: string): string {
    Trim(StripHashes(trimmed))
  }

  /**
   * The non-empty comment texts the upward walk collects when it is about to
   * look at line `i - 1`, in source order. The walk goes on over comment
   * lines, and over a blank line only when the line above it is a comment.
   */
  function Fragments(lines: seq<string>, i: nat): seq<string>
    requires i <= |lines|
  {
    if i == 0 then []
    else
      var prev := Trim(lines[i - 1]);
      if IsCommentLine(prev) then
        var c := CommentText(prev);
        Fragments(lines, i - 1) + (if c == [] then [] else [c])
      else if prev == [] && i - 1 > 0 && IsCommentLine(Trim(lines[i - 2])) then
        Fragments(lines, i - 1)
      else
        []
  }

  /** One step of the walk: what line `i` adds to the fragments below it. */
  lemma {:induction false} FragmentsStep(lines: seq<string>, i: nat)
    requires i < |lines|
    ensures var prev := Trim(lines[i]);
            var bridged := prev == [] && i > 0 && IsCommentLine(Trim(lines[i - 1]));
            && (IsCommentLine(prev) && CommentText(prev) != [] ==>
                  Fragments(lines, i + 1) == Fragments(lines, i) + [CommentText(prev)])
            && (IsCommentLine(prev) && CommentText(prev) == [] ==> Fragments(lines, i + 1) == Fragments(lines, i))
            && (bridged ==> Fragments(lines, i + 1) == Fragments(lines, i))
            && (!IsCommentLine(prev) && !bridged ==> Fragments(lines, i + 1) == [])
  {
    var prev := Trim(lines[i]);
    if IsCommentLine(prev) && CommentText(prev) == [] {
      assert Fragments(lines, i) + [] == Fragments(lines, i);
    }
  }

  /** The description of the target declared on line `k` (0-based). */
  function Description(lines: seq<string>, k: nat): Option<string>
    requires k < |lines|
  {
    var inline := InlineDescription(lines[k]);
    if inline.Some? then inline
    else
      var f := Fragments(lines, k);
      if f == [] then None else Some(Join(f, " "))
  }

  /**
   * `extract_description`: the inline `##` text if any, otherwise the
   * comment block above the line, walked upwards and reversed at the end.
   */
  method ExtractDescription(lines: seq<string>, targetLine: nat) returns (d: Option<string>)
    requires targetLine < |lines|
    ensures d == Description(lines, targetLine)
  {
    var target := lines[targetLine];
    var pos := IndexOf(target, "##");
    if pos.Some? {
      var desc := Trim(Slice(target, pos.value + 2, |target|));
      if desc != [] {
        assert InlineDescription(target) == Some(desc);
        return Some(desc);
      }
    }
    assert InlineDescription(target).None?;
    assert Description(lines, targetLine) == if Fragments(lines, targetLine) == [] then None
                                             else Some(Join(Fragments(lines, targetLine), " "));
    var comments: seq<string> := [];
    var i := targetLine;
    while i > 0
      invariant i <= targetLine
      invariant Fragments(lines, targetLine) == Fragments(lines, i) + Reversed(comments)
    {
      i := i - 1;
      FragmentsStep(lines, i);
      var prevLine := Trim(lines[i]);
      if IsCommentLine(prevLine) {
        var comment := Trim(StripHashes(prevLine));
        if comment != [] {
          ReversedSnoc(comments, comment);
          ConcatAssoc(Fragments(lines, i), [comment], Reversed(comments));
          comments := comments + [comment];
        } else {
          assert Fragments(lines, i + 1) == Fragments(lines, i);
        }
      } else if prevLine == [] {
        if i > 0 {
          var beforeBlank := Trim(lines[i - 1]);
          if IsCommentLine(beforeBlank) {
            continue;
          }
        }
        break;
      } else {
        break;
      }
    }
    assert Fragments(lines, targetLine) == Reversed(comments);
    if comments == [] {
      d := None;
    } else {
      comments := Reversed(comments);
      d := Some(Join(comments, " "));
    }
  }

  // ---------------------------------------------------------------------
  // `parse_makefile_content`
  // ---------------------------------------------------------------------

  /** What line `k` declares once the filters are applied (nothing past the end). */
  function CandidateOf(lines: seq<string>, opts: ParseOptions): nat -> Option<string> {
    (k: nat) => if k < |lines| then Candidate(lines[k], opts) else None
  }

  /** The description line `k` would get if it declared a target. */
  function DescriptionOf(lines: seq<string>): nat -> Option<string> {
    (k: nat) => if k < |lines| then Description(lines, k) else None
  }

  /**
   * What line `line` (1-based), declaring `cand`, adds to the targets of
   * the lines above it: a new target, described by `descs`, unless the name
   * was seen already. The description is looked up only for a new target,
   * as `extract_description` is called only then.
   */
  function Declare(prev: seq<Target>, cand: Option<string>, descs: nat -> Option<string>, file: Path, line: nat): seq<Target>
    requires line >= 1
  {
    match cand
    case None => prev
    case Some(name) => if name in Names(prev) then prev else prev + [New(name, descs(line - 1), file, line)]
  }

  /** The targets collected from the first `n` lines, given what each line declares and its description. */
  function Collect(cands: nat -> Option<string>, descs: nat -> Option<string>, file: Path, n: nat): seq<Target> {
    if n == 0 then [] else Declare(Collect(cands, descs, file, n - 1), cands(n - 1), descs, file, n)
  }

  /** What `parse_makefile_content` returns for the lines of `file`. */
  function ParseContent(lines: seq<string>, file: Path, opts: ParseOptions): seq<Target> {
    ParsedPrefix(lines, file, opts, |lines|)
  }

  /** The targets the loop of `parse_makefile_content` holds after the first `n` lines. */
  function ParsedPrefix(lines: seq<string>, file: Path, opts: ParseOptions, n: nat): seq<Target> {
    Collect(CandidateOf(lines, opts), DescriptionOf(lines), file, n)
  }

  /**
   * The checks `parse_makefile_content` makes on one line before the
   * duplicate test, in its order; `None` where the loop moves on.
   */
  method LineTarget(line: string, opts: ParseOptions) returns (name: Option<string>)
    ensures name == Candidate(line, opts)
  {
    var trimmed := Trim(line);
    if trimmed == [] || IsCommentLine(trimmed) {
      return None;
    }
    if IsVariableAssignment(trimmed) || IsTargetSpecificVariable(trimmed) {
      return None;
    }
    var caps := MatchTarget(trimmed);
    if caps.None? {
      return None;
    }
    var targetName := caps.value;
    if '%' in targetName && !opts.includePatterns {
      return None;
    }
    if IsPrivateName(targetName) && !opts.includePrivate {
      return None;
    }
    return Some(targetName);
  }

  /**
   * The body of the loop of `parse_makefile_content` for line `lineNum`:
   * a declared, admitted name not seen yet adds a target.
   */
  method ParseLine(lines: seq<string>, lineNum: nat, file: Path, opts: ParseOptions,
                   targets: seq<Target>, seenNames: set<string>)
      returns (targets': seq<Target>, seenNames': set<string>)
    requires lineNum < |lines| && seenNames == Names(targets)
    requires targets == ParsedPrefix(lines, file, opts, lineNum)
    ensures targets' == ParsedPrefix(lines, file, opts, lineNum + 1)
    ensures seenNames' == Names(targets')
  {
    targets', seenNames' := targets, seenNames;
    var found := LineTarget(lines[lineNum], opts);
    if found.Some? && found.value !in seenNames {
      var targetName := found.value;
      var description := ExtractDescription(lines, lineNum);
      NamesSnoc(targets, New(targetName, description, file, lineNum + 1));
      seenNames' := seenNames + {targetName};
      targets' := targets + [New(targetName, description, file, lineNum + 1)];
    }
  }

  /** `parse_makefile_content`, its loop over lines with the `seen_names` set. */
  method ParseMakefileContent(lines: seq<string>, file: Path, opts: ParseOptions) returns (targets: seq<Target>)
    ensures targets == ParseContent(lines, file, opts)
  {
    targets := [];
    var seenNames: set<string> := {};
    for lineNum := 0 to |lines|
      invariant targets == ParsedPrefix(lines, file, opts, lineNum)
      invariant seenNames == Names(targets)
    {
      targets, seenNames := ParseLine(lines, lineNum, file, opts, targets, seenNames);
    }
    assert targets == ParsedPrefix(lines, file, opts, |lines|);
  }

  // ---------------------------------------------------------------------
  // What the parse of one file promises
  // ---------------------------------------------------------------------

  /**
   * The `i`-th target of the first `n` lines comes from a line among them
   * that declares its name, and carries that line's description.
   */
  lemma {:induction false} CollectAt(cands: nat -> Option<string>, descs: nat -> Option<string>, file: Path, n: nat, i: nat)
    requires i < |Collect(cands, descs, file, n)|
    ensures var t := Collect(cands, descs, file, n)[i];
            && 1 <= t.line <= n
            && cands(t.line - 1) == Some(t.name)
            && t == New(t.name, descs(t.line - 1), file, t.line)
  {
    var prev := Collect(cands, descs, file, n - 1);
    if i < |prev| {
      CollectAt(cands, descs, file, n - 1, i);
      assert Collect(cands, descs, file, n)[i] == prev[i];
    }
  }

  /** Targets come out in strictly increasing line order, with distinct names. */
  lemma {:induction false} CollectOrdered(cands: nat -> Option<string>, descs: nat -> Option<string>, file: Path, n: nat)
    ensures var r := Collect(cands, descs, file, n);
            && DistinctNames(r)
            && (forall i :: 0 <= i < |r| ==> 1 <= r[i].line <= n)
            && (forall i, j :: 0 <= i < j < |r| ==> r[i].line < r[j].line)
  {
    if n > 0 {
      CollectOrdered(cands, descs, file, n - 1);
      var prev := Collect(cands, descs, file, n - 1);
      var r := Collect(cands, descs, file, n);
      if r != prev {
        assert r[|prev|].line == n && r[|prev|].name !in Names(prev);
        forall i, j | 0 <= i < j < |r| ensures r[i].name != r[j].name && r[i].line < r[j].line {
          assert r[i] == prev[i];
          if j < |prev| {
            assert r[j] == prev[j];
          } else {
            assert prev[i].name in Names(prev);
          }
        }
        forall i | 0 <= i < |r| ensures 1 <= r[i].line <= n {
          if i < |prev| {
            assert r[i] == prev[i];
          }
        }
      }
    }
  }

  /** Every name declared on one of the first `n` lines is in the result. */
  lemma {:induction false} CollectComplete(cands: nat -> Option<string>, descs: nat -> Option<string>, file: Path, n: nat)
    ensures var r := Collect(cands, descs, file, n);
            forall k: nat :: k < n && cands(k).Some? ==> cands(k).value in Names(r)
  {
    if n > 0 {
      CollectComplete(cands, descs, file, n - 1);
      var prev := Collect(cands, descs, file, n - 1);
      var r := Collect(cands, descs, file, n);
      if r != prev {
        NamesSnoc(prev, r[|prev|]);
        assert r == prev + [r[|prev|]];
      }
    }
  }

  /** The first line declaring a name wins: no earlier line declares a kept target's name. */
  lemma {:induction false} CollectFirstWins(cands: nat -> Option<string>, descs: nat -> Option<string>, file: Path, n: nat)
    ensures var r := Collect(cands, descs, file, n);
            forall i, k: nat :: 0 <= i < |r| && k < r[i].line - 1 ==> cands(k) != Some(r[i].name)
  {
    if n > 0 {
      CollectFirstWins(cands, descs, file, n - 1);
      CollectOrdered(cands, descs, file, n - 1);
      var prev := Collect(cands, descs, file, n - 1);
      var r := Collect(cands, descs, file, n);
      if r != prev {
        CollectComplete(cands, descs, file, n - 1);
        assert r == prev + [New(cands(n - 1).value, descs(n - 1), file, n)];
        assert cands(n - 1).value !in Names(prev);
        forall i, k: nat | 0 <= i < |r| && k < r[i].line - 1 ensures cands(k) != Some(r[i].name) {
          if i < |prev| {
            assert r[i] == prev[i];
          }
        }
      }
    }
  }

  /** A parse keeps distinct names, in strictly increasing line order, each on a line of the file. */
  lemma {:induction false} ParseContentOrdered(lines: seq<string>, file: Path, opts: ParseOptions)
    ensures var r := ParseContent(lines, file, opts);
            && DistinctNames(r)
            && (forall i :: 0 <= i < |r| ==> 1 <= r[i].line <= |lines| && r[i].file == file)
            && (forall i, j :: 0 <= i < j < |r| ==> r[i].line < r[j].line)
  {
    CollectOrdered(CandidateOf(lines, opts), DescriptionOf(lines), file, |lines|);
    forall i | 0 <= i < |ParseContent(lines, file, opts)| {
      CollectAt(CandidateOf(lines, opts), DescriptionOf(lines), file, |lines|, i);
    }
  }

  /**
   * The `i`-th target of a parse: its line yields its name, and it carries
   * that line's description and the file's path.
   */
  lemma {:induction false} ParseContentTarget(lines: seq<string>, file: Path, opts: ParseOptions, i: nat)
    requires i < |ParseContent(lines, file, opts)|
    ensures var t := ParseContent(lines, file, opts)[i];
            && 1 <= t.line <= |lines|
            && Candidate(lines[t.line - 1], opts) == Some(t.name)
            && t == New(t.name, Description(lines, t.line - 1), file, t.line)
  {
    CollectAt(CandidateOf(lines, opts), DescriptionOf(lines), file, |lines|, i);
  }

  /** Each target is declared by its own line: that line yields the target's name. */
  lemma {:induction false} ParseContentProvenance(lines: seq<string>, file: Path, opts: ParseOptions)
    ensures var r := ParseContent(lines, file, opts);
            forall i :: 0 <= i < |r| ==> 1 <= r[i].line <= |lines| && Candidate(lines[r[i].line - 1], opts) == Some(r[i].name)
  {
    forall i | 0 <= i < |ParseContent(lines, file, opts)| {
      ParseContentTarget(lines, file, opts, i);
    }
  }

  /** Each target carries the description its declaring line's comments give, and the file's path. */
  lemma {:induction false} ParseContentDescribed(lines: seq<string>, file: Path, opts: ParseOptions)
    ensures var r := ParseContent(lines, file, opts);
            forall i :: 0 <= i < |r| ==>
              && 1 <= r[i].line <= |lines|
              && r[i] == New(r[i].name, Description(lines, r[i].line - 1), file, r[i].line)
  {
    forall i | 0 <= i < |ParseContent(lines, file, opts)| {
      ParseContentTarget(lines, file, opts, i);
    }
  }

  /** Every name some line yields is among the targets. */
  lemma {:induction false} ParseContentComplete(lines: seq<string>, file: Path, opts: ParseOptions)
    ensures var r := ParseContent(lines, file, opts);
            forall k :: 0 <= k < |lines| && Candidate(lines[k], opts).Some? ==> Candidate(lines[k], opts).value in Names(r)
  {
    var cands := CandidateOf(lines, opts);
    CollectComplete(cands, DescriptionOf(lines), file, |lines|);
    forall k | 0 <= k < |lines| && Candidate(lines[k], opts).Some?
      ensures Candidate(lines[k], opts).value in Names(ParseContent(lines, file, opts))
    {
      assert cands(k) == Candidate(lines[k], opts);
    }
  }

  /** `CollectFirstWins` for one target and one line above it. */
  lemma {:induction false} CollectFirstWinsAt(cands: nat -> Option<string>, descs: nat -> Option<string>, file: Path, n: nat, i: nat, k: nat)
    requires i < |Collect(cands, descs, file, n)| && k < Collect(cands, descs, file, n)[i].line - 1
    ensures cands(k) != Some(Collect(cands, descs, file, n)[i].name)
  {
    CollectFirstWins(cands, descs, file, n);
  }

  /** A duplicate declaration is ignored: no line above a target's own yields its name. */
  lemma {:induction false} ParseContentFirstWins(lines: seq<string>, file: Path, opts: ParseOptions)
    ensures var r := ParseContent(lines, file, opts);
            forall i, k :: 0 <= i < |r| && 0 <= k < |lines| && k < r[i].line - 1 ==> Candidate(lines[k], opts) != Some(r[i].name)
  {
    var r := ParseContent(lines, file, opts);
    forall i, k | 0 <= i < |r| && 0 <= k < |lines| && k < r[i].line - 1
      ensures Candidate(lines[k], opts) != Some(r[i].name)
    {
      CollectFirstWinsAt(CandidateOf(lines, opts), DescriptionOf(lines), file, |lines|, i, k);
    }
  }

  // ---------------------------------------------------------------------
  // `parse_makefile` and `parse_all_makefiles`
  // ---------------------------------------------------------------------

  /** Why a parse of several files fails. */
  datatype ParseError =
    | NoMakefile                 // the discovered file list is empty
    | Unreadable(path: Path)     // `fs::read_to_string` failed on this file

  /** `parse_makefile`: the targets of one file, or its read error. */
  function ParseFile(fs: FileSystem, p: Path, opts: ParseOptions): (r: Result<seq<Target>, ParseError>)
    ensures r.Ok? <==> p in fs.contents
    ensures r.Ok? ==> r.value == FileTargets(fs, p, opts)
    ensures r.Err? ==> r.error == Unreadable(p)
  {
    match Read(fs, p)
    case Err(_) => Err(Unreadable(p))
    case Ok(lines) => Ok(ParseContent(lines, p, opts))
  }

  /** The targets of one readable file. */
  function FileTargets(fs: FileSystem, p: Path, opts: ParseOptions): seq<Target>
    requires p in fs.contents
  {
    ParseContent(fs.contents[p], p, opts)
  }

  /** `parse_makefile` with the file system and options fixed. */
  function FileParser(fs: FileSystem, opts: ParseOptions): Path -> Result<seq<Target>, ParseError> {
    p => ParseFile(fs, p, opts)
  }

  /**
   * The `?`-loop over the files: each file's result in order, or the error
   * of the first file whose parse fails.
   */
  function ParseEach(parse: Path -> Result<seq<Target>, ParseError>, files: seq<Path>): (r: Result<seq<seq<Target>>, ParseError>)
    ensures r.Ok? ==> |r.value| == |files|
    decreases |files|
  {
    if files == [] then Ok([])
    else
      match ParseEach(parse, files[..|files| - 1])
      case Err(e) => Err(e)
      case Ok(lists) =>
        match parse(files[|files| - 1])
        case Err(e) => Err(e)
        case Ok(ts) => Ok(lists + [ts])
  }

  /** What `parse_all_makefiles` returns for the discovered files. */
  function ParseAll(fs: FileSystem, files: seq<Path>, opts: ParseOptions): Result<seq<Target>, ParseError> {
    if files == [] then Err(NoMakefile)
    else
      match ParseEach(FileParser(fs, opts), files)
      case Err(e) => Err(e)
      case Ok(lists) => Ok(SortByName(MergeAll(lists)))
  }

  /** `parse_makefile`: read the file, then run the line loop over it. */
  method ParseMakefile(fs: FileSystem, p: Path, opts: ParseOptions) returns (r: Result<seq<Target>, ParseError>)
    ensures r == ParseFile(fs, p, opts)
  {
    var content := Read(fs, p);
    if content.Err? {
      return Err(Unreadable(p));
    }
    var targets := ParseMakefileContent(content.value, p, opts);
    return Ok(targets);
  }

  /** After the files before `i` parse, file `i` either fails the walk or adds its list. */
  lemma ParseEachSnoc(parse: Path -> Result<seq<Target>, ParseError>, files: seq<Path>, i: nat)
    requires i < |files| && ParseEach(parse, files[..i]).Ok?
    ensures parse(files[i]).Err? ==> ParseEach(parse, files[..i + 1]) == Err(parse(files[i]).error)
    ensures parse(files[i]).Ok? ==>
              ParseEach(parse, files[..i + 1]) == Ok(ParseEach(parse, files[..i]).value + [parse(files[i]).value])
  {
    assert files[..i + 1][..i] == files[..i];
  }

  /** Once a prefix of the files fails, the whole list fails the same way. */
  lemma {:induction false} ParseEachErrorSticks(parse: Path -> Result<seq<Target>, ParseError>, files: seq<Path>, i: nat)
    requires i <= |files| && ParseEach(parse, files[..i]).Err?
    ensures ParseEach(parse, files) == ParseEach(parse, files[..i])
    decreases |files| - i
  {
    if i < |files| {
      var front := files[..|files| - 1];
      assert front[..i] == files[..i];
      ParseEachErrorSticks(parse, front, i);
    } else {
      assert files[..i] == files;
    }
  }

  /**
   * The loop of `parse_all_makefiles`: each file is parsed in order (a read
   * error ends the walk), and the targets whose names are new are appended.
   */
  method MergeFiles(fs: FileSystem, files: seq<Path>, opts: ParseOptions) returns (r: Result<seq<Target>, ParseError>)
    ensures var each := ParseEach(FileParser(fs, opts), files);
            && (r.Ok? <==> each.Ok?)
            && (r.Ok? ==> r.value == MergeAll(each.value))
            && (r.Err? ==> r.error == each.error)
  {
    ghost var parse := FileParser(fs, opts);
    var allTargets: seq<Target> := [];
    var seenNames: set<string> := {};
    ghost var lists: seq<seq<Target>> := [];
    for i := 0 to |files|
      invariant ParseEach(parse, files[..i]) == Ok(lists)
      invariant allTargets == MergeAll(lists) && seenNames == Names(allTargets)
    {
      ParseEachSnoc(parse, files, i);
      var parsed := ParseMakefile(fs, files[i], opts);
      assert parsed == parse(files[i]);
      if parsed.Err? {
        ParseEachErrorSticks(parse, files, i + 1);
        return Err(parsed.error);
      }
      allTargets, seenNames := AppendNew(allTargets, seenNames, parsed.value);
      MergeAllSnoc(lists, parsed.value);
      lists := lists + [parsed.value];
    }
    assert files[..|files|] == files;
    return Ok(allTargets);
  }

  /** `parse_all_makefiles`: no files is an error; otherwise the merged targets, sorted by name. */
  method ParseAllMakefiles(fs: FileSystem, files: seq<Path>, opts: ParseOptions) returns (r: Result<seq<Target>, ParseError>)
    ensures r == ParseAll(fs, files, opts)
  {
    if |files| == 0 {
      return Err(NoMakefile);
    }
    var merged := MergeFiles(fs, files, opts);
    if merged.Err? {
      return Err(merged.error);
    }
    var allTargets := SortByName(merged.value);
    return Ok(allTargets);
  }

  /** Index of the first file whose parse fails, or `|files|` when none does. */
  function FirstFailure(parse: Path -> Result<seq<Target>, ParseError>, files: seq<Path>): (r: nat)
    ensures r <= |files|
    ensures forall j :: 0 <= j < r ==> parse(files[j]).Ok?
    ensures r < |files| ==> parse(files[r]).Err?
  {
    if files == [] then 0
    else if parse(files[0]).Err? then 0
    else 1 + FirstFailure(parse, files[1..])
  }

  /** Index of the first file that cannot be read, or `|files|` when all can. */
  function FirstUnreadable(fs: FileSystem, files: seq<Path>): (r: nat)
    ensures r <= |files|
    ensures forall j :: 0 <= j < r ==> files[j] in fs.contents
    ensures r < |files| ==> files[r] !in fs.contents
  {
    if files == [] then 0
    else if files[0] !in fs.contents then 0
    else 1 + FirstUnreadable(fs, files[1..])
  }

  /** The first failing file of a list is that of its front, unless the front succeeds. */
  lemma {:induction false} FirstFailureSnoc(parse: Path -> Result<seq<Target>, ParseError>, files: seq<Path>)
    requires files != []
    ensures var n := |files| - 1;
            var f := FirstFailure(parse, files[..n]);
            FirstFailure(parse, files) == if f < n || parse(files[n]).Err? then f else n + 1
  {
    var n := |files| - 1;
    var front := files[..n];
    var f := FirstFailure(parse, front);
    var e := if f < n || parse(files[n]).Err? then f else n + 1;
    forall j | 0 <= j < e ensures parse(files[j]).Ok? {
      if j < n {
        assert files[j] == front[j];
      }
    }
    if f < n {
      assert files[f] == front[f];
    }
    FirstFailureUnique(parse, files, e);
  }

  /** The first failing file is the only index before which every file parses and at which one fails. */
  lemma {:induction false} FirstFailureUnique(parse: Path -> Result<seq<Target>, ParseError>, files: seq<Path>, x: nat)
    requires x <= |files|
    requires forall j :: 0 <= j < x ==> parse(files[j]).Ok?
    requires x < |files| ==> parse(files[x]).Err?
    ensures FirstFailure(parse, files) == x
    decreases |files|
  {
    if files != [] && parse(files[0]).Ok? {
      var rest := files[1..];
      forall j | 0 <= j < x - 1 ensures parse(rest[j]).Ok? {
        assert rest[j] == files[j + 1];
      }
      assert x - 1 < |rest| ==> rest[x - 1] == files[x];
      FirstFailureUnique(parse, rest, x - 1);
    }
  }

  /** For `parse_makefile`, the first failing file is the first unreadable one. */
  lemma {:induction false} FirstFailureUnreadable(fs: FileSystem, files: seq<Path>, opts: ParseOptions)
    ensures FirstFailure(FileParser(fs, opts), files) == FirstUnreadable(fs, files)
    decreases |files|
  {
    if files != [] {
      FirstFailureUnreadable(fs, files[1..], opts);
    }
  }

  /**
   * The file-by-file loop succeeds exactly when every file parses, and
   * otherwise reports the error of the first file that does not.
   */
  lemma {:induction false} ParseEachOutcome(parse: Path -> Result<seq<Target>, ParseError>, files: seq<Path>)
    ensures var r := ParseEach(parse, files);
            var f := FirstFailure(parse, files);
            && (r.Ok? <==> f == |files|)
            && (r.Err? ==> f < |files| && r.error == parse(files[f]).error)
    decreases |files|
  {
    if files != [] {
      ParseEachOutcome(parse, files[..|files| - 1]);
      FirstFailureSnoc(parse, files);
    }
  }

  /** A successful file-by-file loop yields each file's own result, in order. */
  lemma {:induction false} ParseEachValues(parse: Path -> Result<seq<Target>, ParseError>, files: seq<Path>)
    requires ParseEach(parse, files).Ok?
    ensures var lists := ParseEach(parse, files).value;
            && |lists| == |files|
            && forall k :: 0 <= k < |files| ==> parse(files[k]).Ok? && lists[k] == parse(files[k]).value
    decreases |files|
  {
    if files != [] {
      var n := |files| - 1;
      var front := files[..n];
      ParseEachValues(parse, front);
      var prev, lists := ParseEach(parse, front).value, ParseEach(parse, files).value;
      assert lists == prev + [parse(files[n]).value];
      forall k | 0 <= k < |files| ensures parse(files[k]).Ok? && lists[k] == parse(files[k]).value {
        if k < n {
          assert lists[k] == prev[k] && front[k] == files[k];
        }
      }
    }
  }

  /**
   * `parse_all_makefiles` fails with "No Makefile found" exactly when there
   * are no files, succeeds exactly when there are some and all are readable,
   * and otherwise reports the first unreadable one.
   */
  lemma {:induction false} ParseAllOutcome(fs: FileSystem, files: seq<Path>, opts: ParseOptions)
    ensures var r := ParseAll(fs, files, opts);
            var f := FirstUnreadable(fs, files);
            && (r == Err(NoMakefile) <==> files == [])
            && (r.Ok? <==> files != [] && f == |files|)
            && (r.Err? && files != [] ==> f < |files| && r.error == Unreadable(files[f]))
  {
    ParseEachOutcome(FileParser(fs, opts), files);
    FirstFailureUnreadable(fs, files, opts);
  }

  /**
   * What a successful `parse_all_makefiles` returns: sorted by name, each
   * name once, every name some file declares, and for each name the target
   * of the first file that declares it.
   */
  lemma {:induction false} ParseAllSpec(fs: FileSystem, files: seq<Path>, opts: ParseOptions)
    requires ParseAll(fs, files, opts).Ok?
    ensures forall k :: 0 <= k < |files| ==> files[k] in fs.contents
    ensures var r := ParseAll(fs, files, opts).value;
            && SortedByName(r) && DistinctNames(r)
            && (forall n :: n in Names(r) <==> exists k :: 0 <= k < |files| && n in Names(FileTargets(fs, files[k], opts)))
            && forall i :: 0 <= i < |r| ==>
                 exists k :: 0 <= k < |files| && r[i] in FileTargets(fs, files[k], opts) && r[i].file == files[k]
                          && forall j :: 0 <= j < k ==> r[i].name !in Names(FileTargets(fs, files[j], opts))
  {
    var lists := ParseAllLists(fs, files, opts);
    MergeAllSpec(lists);
    ParseAllNameSet(fs, files, opts);
    ParseAllEachFirst(fs, files, opts);
  }

  /** The result's names are exactly the names some file declares. */
  lemma {:induction false} ParseAllNameSet(fs: FileSystem, files: seq<Path>, opts: ParseOptions)
    requires ParseAll(fs, files, opts).Ok?
    ensures forall k :: 0 <= k < |files| ==> files[k] in fs.contents
    ensures var r := ParseAll(fs, files, opts).value;
            forall n :: n in Names(r) <==> exists k :: 0 <= k < |files| && n in Names(FileTargets(fs, files[k], opts))
  {
    var lists := ParseAllLists(fs, files, opts);
    var r := ParseAll(fs, files, opts).value;
    forall n ensures n in Names(r) <==> exists k :: 0 <= k < |files| && n in Names(FileTargets(fs, files[k], opts)) {
      ParseAllNames(fs, files, opts, n);
    }
  }

  /** Every target of the result comes from the first file declaring its name. */
  lemma {:induction false} ParseAllEachFirst(fs: FileSystem, files: seq<Path>, opts: ParseOptions)
    requires ParseAll(fs, files, opts).Ok?
    ensures forall k :: 0 <= k < |files| ==> files[k] in fs.contents
    ensures var r := ParseAll(fs, files, opts).value;
            forall i :: 0 <= i < |r| ==>
              exists k :: 0 <= k < |files| && r[i] in FileTargets(fs, files[k], opts) && r[i].file == files[k]
                       && forall j :: 0 <= j < k ==> r[i].name !in Names(FileTargets(fs, files[j], opts))
  {
    var lists := ParseAllLists(fs, files, opts);
    var r := ParseAll(fs, files, opts).value;
    forall i | 0 <= i < |r|
      ensures exists k :: 0 <= k < |files| && r[i] in FileTargets(fs, files[k], opts) && r[i].file == files[k]
                       && forall j :: 0 <= j < k ==> r[i].name !in Names(FileTargets(fs, files[j], opts))
    {
      var k := ParseAllFirstFileWins(fs, files, opts, i);
    }
  }

  /** A name is in the result exactly when some file declares it. */
  lemma {:induction false} ParseAllNames(fs: FileSystem, files: seq<Path>, opts: ParseOptions, n: string)
    requires ParseAll(fs, files, opts).Ok?
    ensures forall k :: 0 <= k < |files| ==> files[k] in fs.contents
    ensures n in Names(ParseAll(fs, files, opts).value) <==>
              exists k :: 0 <= k < |files| && n in Names(FileTargets(fs, files[k], opts))
  {
    var lists := ParseAllLists(fs, files, opts);
    MergeAllNames(lists, n);
    if exists k :: 0 <= k < |files| && n in Names(FileTargets(fs, files[k], opts)) {
      var k :| 0 <= k < |files| && n in Names(FileTargets(fs, files[k], opts));
      assert n in Names(lists[k]);
    }
  }

  /** The `i`-th target of the result is declared in file `k` and in no earlier file. */
  lemma {:induction false} ParseAllFirstFileWins(fs: FileSystem, files: seq<Path>, opts: ParseOptions, i: nat) returns (k: nat)
    requires ParseAll(fs, files, opts).Ok? && i < |ParseAll(fs, files, opts).value|
    ensures forall k :: 0 <= k < |files| ==> files[k] in fs.contents
    ensures var t := ParseAll(fs, files, opts).value[i];
            && k < |files| && t in FileTargets(fs, files[k], opts) && t.file == files[k]
            && forall j :: 0 <= j < k ==> t.name !in Names(FileTargets(fs, files[j], opts))
  {
    var lists := ParseAllLists(fs, files, opts);
    var m := MergeAll(lists);
    var r := ParseAll(fs, files, opts).value;
    assert r[i] in multiset(m);
    var i' :| 0 <= i' < |m| && m[i'] == r[i];
    k := ParseAllOrigin(fs, files, opts, lists, i');
  }

  /** The per-file lists behind a successful `parse_all_makefiles`. */
  lemma {:induction false} ParseAllLists(fs: FileSystem, files: seq<Path>, opts: ParseOptions) returns (lists: seq<seq<Target>>)
    requires ParseAll(fs, files, opts).Ok?
    ensures forall k :: 0 <= k < |files| ==> files[k] in fs.contents
    ensures |lists| == |files| && forall k :: 0 <= k < |files| ==> lists[k] == FileTargets(fs, files[k], opts)
    ensures ParseAll(fs, files, opts) == Ok(SortByName(MergeAll(lists)))
  {
    var parse := FileParser(fs, opts);
    ParseEachValues(parse, files);
    lists := ParseEach(parse, files).value;
  }

  /** The file a merged target comes from: it is declared there, and in no earlier file. */
  lemma {:induction false} ParseAllOrigin(fs: FileSystem, files: seq<Path>, opts: ParseOptions, lists: seq<seq<Target>>, i: nat)
    returns (k: nat)
    requires forall k :: 0 <= k < |files| ==> files[k] in fs.contents
    requires |lists| == |files| && forall k :: 0 <= k < |files| ==> lists[k] == FileTargets(fs, files[k], opts)
    requires i < |MergeAll(lists)|
    ensures var t := MergeAll(lists)[i];
            && k < |files| && t in FileTargets(fs, files[k], opts) && t.file == files[k]
            && forall j :: 0 <= j < k ==> t.name !in Names(FileTargets(fs, files[j], opts))
  {
    k := MergeAllOrigin(lists, i);
    var ts := FileTargets(fs, files[k], opts);
    var t :| 0 <= t < |ts| && ts[t] == MergeAll(lists)[i];
    ParseContentTarget(fs.contents[files[k]], files[k], opts, t);
  }
}
