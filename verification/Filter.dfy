/** The message filter: a scanner over the filter text that evaluates comparisons as it goes, with
    recursion into parenthesised parts; and the expressions such a text stands for. */
module Filter {
  import opened Wrappers

  /** A value, the way evaluation stops the program without one, or that it has not ended yet. */
  datatype Outcome =
    | Value(b: bool)
    | FieldMissing(name: string)
    | NoSubfilterEnd
    | UnknownOperation(op: string)
    | TextExhausted
    | StillRunning

  type Meta = map<string, string>

  // ----- text helpers

  /** Position of the first character from the set, or the length. */
  function FindFirstOf(s: string, chars: string): (k: nat)
    ensures k <= |s| && (k < |s| ==> s[k] in chars) && forall i :: 0 <= i < k ==> s[i] !in chars
  {
    if s == "" || s[0] in chars then 0 else 1 + FindFirstOf(s[1..], chars)
  }

  function FindFrom(s: string, from: nat, chars: string): (k: nat)
    requires from <= |s|
    ensures from <= k <= |s| && (k < |s| ==> s[k] in chars) && forall i :: from <= i < k ==> s[i] !in chars
  {
    var k := FindFirstOf(s[from..], chars);
    assert forall i :: from <= i < from + k ==> s[i] == s[from..][i - from];
    from + k
  }

  function TrimRight(s: string): string {
    if s != "" && s[|s| - 1] == ' ' then TrimRight(s[..|s| - 1]) else s
  }

  function TrimLeft(s: string): string {
    if s != "" && s[0] == ' ' then TrimLeft(s[1..]) else s
  }

  function Trim(s: string): string {
    TrimLeft(TrimRight(s))
  }

  // ----- the matching parenthesis

  datatype Walked = Closed(at: nat) | Open(level: nat, quoted: bool) {
    function Later(): Walked {
      if Closed? then Closed(at + 1) else this
    }
  }

  /** Scans s from nesting level `level`, outside or inside quotes, for the parenthesis closing level 1. */
  function Walk(level: nat, quoted: bool, s: string): Walked
    requires level >= 1
    decreases |s|
  {
    if s == "" then Open(level, quoted)
    else if s[0] == ')' && !quoted then
      if level == 1 then Closed(0) else Walk(level - 1, quoted, s[1..]).Later()
    else if s[0] == '\"' then Walk(level, !quoted, s[1..]).Later()
    else if s[0] == '(' && !quoted then Walk(level + 1, quoted, s[1..]).Later()
    else Walk(level, quoted, s[1..]).Later()
  }

  lemma {:induction false} WalkRange(level: nat, quoted: bool, s: string)
    requires level >= 1
    ensures Walk(level, quoted, s).Closed? ==> Walk(level, quoted, s).at < |s|
    ensures Walk(level, quoted, s).Open? ==> Walk(level, quoted, s).level >= 1
    decreases |s|
  {
    if s != "" {
      if s[0] == ')' && !quoted {
        if level > 1 { WalkRange(level - 1, quoted, s[1..]); }
      } else if s[0] == '\"' {
        WalkRange(level, !quoted, s[1..]);
      } else if s[0] == '(' && !quoted {
        WalkRange(level + 1, quoted, s[1..]);
      } else {
        WalkRange(level, quoted, s[1..]);
      }
    }
  }

  function Subfilter(s: string): (r: Option<string>)
    ensures r.Some? ==> |r.value| < |s|
  {
    WalkRange(1, false, s);
    var w := Walk(1, false, s);
    if w.Closed? then Some(s[..w.at]) else None
  }

  method RetrieveSubfilter(s: string) returns (r: Option<string>)
    ensures r == Subfilter(s)
  {
    var quoted := false;
    var level := 1;
    ghost var whole := Walk(1, false, s);
    WalkRange(1, false, s);
    for i := 0 to |s|
      invariant level >= 1
      invariant var w := Walk(level, quoted, s[i..]);
                whole == if w.Closed? then Closed(i + w.at) else w
    {
      var c := s[i];
      assert s[i..][0] == c && s[i..][1..] == s[i + 1..];
      if c == ')' && !quoted {
        level := level - 1;
        if level == 0 {
          return Some(s[..i]);
        }
      } else if c == '\"' {
        quoted := !quoted;
      } else if c == '(' && !quoted {
        level := level + 1;
      }
    }
    r := None;
  }

  // ----- evaluation, as a function of the text left

  function Combine(op: string, rc: bool, cur: bool): Option<bool> {
    if op == "" then Some(cur)
    else if op == "&&" then Some(rc && cur)
    else if op == "||" then Some(rc || cur)
    else None
  }

  /** One comparison: how it splits, and where the scan goes on. */
  datatype Split = Split(left: string, equals: bool, right: string, next: nat) | OutOfText

  /** The comparison at `pos`.  A missing separator is position -1, as the original's wrap-around has
      it: the right-hand side is then taken from the start of the whole text.  A missing closing quote
      sends the scan back to 0. */
  function SplitTerm(f: string, pos: nat): (r: Split)
    requires pos < |f|
    ensures r.Split? ==> r.next <= |f|
  {
    var found := FindFrom(f, pos, "!=");
    var splitter: int := if found == |f| then -1 else found;
    var equals := splitter == -1 || f[splitter] == '=';
    var from := splitter + if equals then 1 else 2;
    if from > |f| then OutOfText
    else
      var r := SplitRight(f, from);
      Split(Trim(f[pos..found]), equals, r.value, r.next)
  }

  datatype Right = Right(value: string, next: nat)

  /** The right-hand side from `from` on: up to the next space, or between quotes. */
  function SplitRight(f: string, from: nat): (r: Right)
    requires from <= |f|
    ensures r.next <= |f|
  {
    var rightEnd := FindFrom(f, from, " ");
    var right := Trim(f[from..rightEnd]);
    if right != "" && right[0] == '\"' then
      TrimShorter(f[from..rightEnd]);
      var dq := FindFrom(f, from + 1, "\"");
      Right(f[from + 1..dq], if dq == |f| then 0 else dq + 1)
    else Right(right, rightEnd)
  }

  lemma TrimShorter(s: string)
    ensures |Trim(s)| <= |s|
  {
    TrimRightShorter(s);
    TrimLeftShorter(TrimRight(s));
  }

  lemma TrimRightShorter(s: string)
    ensures |TrimRight(s)| <= |s|
  {
  }

  lemma TrimLeftShorter(s: string)
    ensures |TrimLeft(s)| <= |s|
  {
  }

  /** A missing field is an error or counts as true; the value of one that is there is compared. */
  function Compare(left: string, equals: bool, right: string, ignore: bool, meta: Meta): Outcome {
    if left !in meta then (if ignore then Value(true) else FieldMissing(left))
    else Value(if equals then meta[left] == right else meta[left] != right)
  }

  /** The scan from `pos` on, with the operation read last and the value so far.  The scan can be sent
      back; `rounds` is how often this is followed, so evaluation never ends when it is StillRunning
      for every number of rounds. */
  function Exec(f: string, pos: nat, op: string, rc: bool, rounds: nat, ignore: bool, meta: Meta): Outcome
    requires pos <= |f|
    decreases |f|, rounds, |f| - pos
  {
    if pos == |f| then Value(rc)
    else if f[pos] == ' ' then Exec(f, pos + 1, op, rc, rounds, ignore, meta)
    else if f[pos] == '(' then
      var sub := Subfilter(f[pos + 1..]);
      if sub.None? then NoSubfilterEnd
      else
        var cur := Exec(sub.value, 0, "", false, rounds, ignore, meta);
        if !cur.Value? then cur
        else
          var next := Combine(op, rc, cur.b);
          if next.None? then UnknownOperation(op)
          else Exec(f, pos + |sub.value| + 2, "", next.value, rounds, ignore, meta)
    else if f[pos] == '&' || f[pos] == '|' then
      var e := FindFrom(f, pos, " ");
      Exec(f, e, f[pos..e], rc, rounds, ignore, meta)
    else
      var t := SplitTerm(f, pos);
      if t.OutOfText? then TextExhausted
      else
        var cur := Compare(t.left, t.equals, t.right, ignore, meta);
        if !cur.Value? then cur
        else
          var next := Combine(op, rc, cur.b);
          if next.None? then UnknownOperation(op)
          else if t.next > pos then Exec(f, t.next, "", next.value, rounds, ignore, meta)
          else if rounds == 0 then StillRunning
          else Exec(f, t.next, "", next.value, rounds - 1, ignore, meta)
  }

  function Evaluate(filter: string, rounds: nat, ignore: bool, meta: Meta): Outcome {
    Exec(filter, 0, "", false, rounds, ignore, meta)
  }

  /** The evaluation loop. */
  method ExecuteFilter(filter: string, rounds: nat, ignore: bool, meta: Meta) returns (r: Outcome)
    ensures r == Evaluate(filter, rounds, ignore, meta)
    decreases |filter|
  {
    hide Subfilter, SplitTerm, Compare, Combine, FindFrom;
    var position := 0;
    var operation := "";
    var rc := false;
    var left := rounds;
    while position < |filter|
      invariant 0 <= position <= |filter|
      invariant Exec(filter, position, operation, rc, left, ignore, meta) == Exec(filter, 0, "", false, rounds, ignore, meta)
      decreases left, |filter| - position
    {
      if filter[position] == ' ' {
        position := position + 1;
      } else if filter[position] == '(' {
        var temp := RetrieveSubfilter(filter[position + 1..]);
        if temp.None? {
          return NoSubfilterEnd;
        }
        var cur := ExecuteFilter(temp.value, left, ignore, meta);
        if !cur.Value? {
          return cur;
        }
        var next := Combine(operation, rc, cur.b);
        if next.None? {
          return UnknownOperation(operation);
        }
        rc := next.value;
        operation := "";
        position := position + |temp.value| + 2;
      } else if filter[position] == '&' || filter[position] == '|' {
        var tokenEnd := FindFrom(filter, position, " ");
        operation := filter[position..tokenEnd];
        position := tokenEnd;
      } else {
        var t := SplitTerm(filter, position);
        if t.OutOfText? {
          return TextExhausted;
        }
        var cur := Compare(t.left, t.equals, t.right, ignore, meta);
        if !cur.Value? {
          return cur;
        }
        var next := Combine(operation, rc, cur.b);
        if next.None? {
          return UnknownOperation(operation);
        }
        if t.next <= position {
          if left == 0 {
            return StillRunning;
          }
          left := left - 1;
        }
        rc := next.value;
        operation := "";
        position := t.next;
      }
    }
    r := Value(rc);
  }

  // ----- expressions

  datatype Op = And | Or

  /** A comparison may have spaces between the field and the separator. */
  datatype Term =
    | Comparison(field: string, pad: nat, equals: bool, value: string, quoted: bool)
    | Group(inner: Expr)

  /** A term, or an expression with one more term joined on by an operation. */
  datatype Expr = Single(term: Term) | Joined(before: Expr, op: Op, last: Term)

  function PrintOp(op: Op): string {
    if op.And? then "&&" else "||"
  }

  function Spaces(n: nat): (s: string)
    ensures |s| == n && forall i :: 0 <= i < n ==> s[i] == ' '
  {
    if n == 0 then "" else " " + Spaces(n - 1)
  }

  function PrintTerm(t: Term): string {
    match t
    case Comparison(field, pad, equals, value, quoted) =>
      field + Spaces(pad) + Separator(equals) + if quoted then "\"" + value + "\"" else value
    case Group(inner) => "(" + Print(inner) + ")"
  }

  function Print(e: Expr): string {
    match e
    case Single(term) => PrintTerm(term)
    case Joined(before, op, last) => Print(before) + " " + PrintOp(op) + " " + PrintTerm(last)
  }

  /** Strictly from left to right, all operations alike; both sides are always evaluated. */
  function Meaning(e: Expr, ignore: bool, meta: Meta): Outcome {
    match e
    case Single(term) => TermMeaning(term, ignore, meta)
    case Joined(before, op, last) =>
      var acc := Meaning(before, ignore, meta);
      if !acc.Value? then acc
      else
        var next := TermMeaning(last, ignore, meta);
        if !next.Value? then next else Value(Joint(op, acc.b, next.b))
  }

  function Joint(op: Op, a: bool, b: bool): bool {
    if op.And? then a && b else a || b
  }

  /** Whether the field has the value, or has another one; a missing field is ignored or an error. */
  function TermMeaning(t: Term, ignore: bool, meta: Meta): Outcome {
    match t
    case Comparison(field, _, equals, value, _) =>
      if field in meta then Value((meta[field] == value) == equals)
      else if ignore then Value(true)
      else FieldMissing(field)
    case Group(inner) => Meaning(inner, ignore, meta)
  }

  // ----- which expressions can be written down

  predicate NoneOf(s: string, chars: string) {
    forall i :: 0 <= i < |s| ==> s[i] !in chars
  }

  /** A field name without separators, not starting or ending with a space, and not starting like a
      group or an operation. */
  predicate FieldOk(field: string) {
    NoneOf(field, "!=") && (field != "" ==> field[0] !in " (&|" && field[|field| - 1] != ' ')
  }

  /** A quoted value without quotes; a bare one without spaces that does not start with a quote. */
  predicate ValueOk(value: string, quoted: bool) {
    if quoted then NoneOf(value, "\"") else NoneOf(value, " ") && (value != "" ==> value[0] != '\"')
  }

  /** Parentheses outside quotes match, and quotes are closed. */
  predicate Balanced(s: string) {
    Walk(1, false, s) == Open(1, false)
  }

  /** What can be written down and told apart again; the text of a group has to be balanced. */
  predicate Printable(t: Term) {
    match t
    case Comparison(field, pad, _, value, quoted) =>
      FieldOk(field) && (field == "" ==> pad == 0) && ValueOk(value, quoted)
    case Group(inner) => PrintableExpr(inner) && Balanced(Print(inner))
  }

  predicate PrintableExpr(e: Expr) {
    match e
    case Single(term) => Printable(term)
    case Joined(before, _, last) => PrintableExpr(before) && Printable(last)
  }

  /** Without parentheses in names and bare values, and quotes only around values, everything is. */
  predicate Plain(t: Term) {
    match t
    case Comparison(field, pad, _, value, quoted) =>
      FieldOk(field) && (field == "" ==> pad == 0) && NoneOf(field, "()\"") && NoneOf(value, if quoted then "\"" else " ()\"")
    case Group(inner) => PlainExpr(inner)
  }

  predicate PlainExpr(e: Expr) {
    match e
    case Single(term) => Plain(term)
    case Joined(before, _, last) => PlainExpr(before) && Plain(last)
  }

  // ----- the matching parenthesis is found

  lemma {:induction false} WalkConcat(level: nat, quoted: bool, a: string, b: string)
    requires level >= 1
    ensures var w := Walk(level, quoted, a);
            (WalkRange(level, quoted, a);
             Walk(level, quoted, a + b) ==
             if w.Closed? then w
             else var v := Walk(w.level, w.quoted, b); if v.Closed? then Closed(|a| + v.at) else v)
    decreases |a|
  {
    WalkRange(level, quoted, a);
    if a == "" {
      assert a + b == b;
    } else {
      assert (a + b)[0] == a[0] && (a + b)[1..] == a[1..] + b;
      if a[0] == ')' && !quoted {
        if level > 1 { WalkConcat(level - 1, quoted, a[1..], b); }
      } else if a[0] == '\"' {
        WalkConcat(level, !quoted, a[1..], b);
      } else if a[0] == '(' && !quoted {
        WalkConcat(level + 1, quoted, a[1..], b);
      } else {
        WalkConcat(level, quoted, a[1..], b);
      }
    }
  }

  /** Text the scan passes without any effect on nesting or quoting. */
  ghost predicate Neutral(s: string) {
    forall level: nat :: level >= 1 ==> Walk(level, false, s) == Open(level, false)
  }

  lemma NeutralConcat(a: string, b: string)
    requires Neutral(a) && Neutral(b)
    ensures Neutral(a + b)
  {
    forall level: nat | level >= 1 ensures Walk(level, false, a + b) == Open(level, false) {
      WalkConcat(level, false, a, b);
    }
  }

  lemma {:induction false} PlainWalk(level: nat, quoted: bool, s: string)
    requires level >= 1 && NoneOf(s, if quoted then "\"" else "()\"")
    ensures Walk(level, quoted, s) == Open(level, quoted)
    decreases |s|
  {
    if s != "" {
      assert NoneOf(s[1..], if quoted then "\"" else "()\"");
      PlainWalk(level, quoted, s[1..]);
    }
  }

  lemma PlainNeutral(s: string)
    requires NoneOf(s, "()\"")
    ensures Neutral(s)
  {
    forall level: nat | level >= 1 ensures Walk(level, false, s) == Open(level, false) {
      PlainWalk(level, false, s);
    }
  }

  lemma QuotedNeutral(v: string)
    requires NoneOf(v, "\"")
    ensures Neutral("\"" + v + "\"")
  {
    forall level: nat | level >= 1 ensures Walk(level, false, "\"" + v + "\"") == Open(level, false) {
      PlainWalk(level, true, v);
      WalkConcat(level, true, v, "\"");
      assert "\"" + v + "\"" == ['\"'] + (v + "\"");
      assert Walk(level, true, "\"") == Open(level, false);
    }
  }

  lemma GroupNeutral(s: string)
    requires Neutral(s)
    ensures Neutral("(" + s + ")")
  {
    forall level: nat | level >= 1 ensures Walk(level, false, "(" + s + ")") == Open(level, false) {
      WalkConcat(level + 1, false, s, ")");
      assert "(" + s + ")" == ['('] + (s + ")");
      assert Walk(level + 1, false, ")") == Open(level, false);
    }
  }

  lemma {:induction false} TermNeutral(t: Term)
    requires Plain(t)
    ensures Neutral(PrintTerm(t)) && Printable(t)
    decreases t
  {
    hide Neutral;
    match t
    case Comparison(field, pad, equals, value, quoted) =>
      var text, sep := field + Spaces(pad), Separator(equals);
      PlainNeutral(text);
      PlainNeutral(sep);
      if quoted { QuotedNeutral(value); } else { PlainNeutral(value); }
      NeutralConcat(text, sep);
      NeutralConcat(text + sep, if quoted then "\"" + value + "\"" else value);
    case Group(inner) =>
      PlainIsPrintable(inner);
      NeutralIsBalanced(Print(inner));
      GroupNeutral(Print(inner));
  }

  lemma NeutralIsBalanced(s: string)
    requires Neutral(s)
    ensures Balanced(s)
  {
  }

  lemma {:induction false} PlainIsPrintable(e: Expr)
    requires PlainExpr(e)
    ensures Neutral(Print(e)) && PrintableExpr(e)
    decreases e
  {
    hide Neutral;
    match e
    case Single(term) => TermNeutral(term);
    case Joined(before, op, last) =>
      PlainIsPrintable(before);
      TermNeutral(last);
      PlainNeutral(" ");
      PlainNeutral(PrintOp(op));
      NeutralConcat(Print(before), " ");
      NeutralConcat(Print(before) + " ", PrintOp(op));
      NeutralConcat(Print(before) + " " + PrintOp(op), " ");
      NeutralConcat(Print(before) + " " + PrintOp(op) + " ", PrintTerm(last));
  }

  /** Behind an opening parenthesis, exactly the text up to the matching one is cut out, however
      deeply it nests and whatever its quoted values contain. */
  lemma SubfilterOfBalanced(s: string, tail: string)
    requires Balanced(s)
    ensures Subfilter(s + ")" + tail) == Some(s)
  {
    WalkConcat(1, false, s, ")" + tail);
    assert s + ")" + tail == s + (")" + tail);
    assert Walk(1, false, ")" + tail) == Closed(0);
    assert (s + ")" + tail)[..|s|] == s;
  }

  lemma SubfilterOfPrinted(e: Expr, tail: string)
    requires PlainExpr(e)
    ensures Subfilter(Print(e) + ")" + tail) == Some(Print(e))
  {
    hide Subfilter, Print, Neutral, Balanced;
    PlainIsPrintable(e);
    NeutralIsBalanced(Print(e));
    SubfilterOfBalanced(Print(e), tail);
  }

  // ----- the scan follows the printed expression

  lemma FindFromIs(s: string, from: nat, chars: string, k: nat)
    requires from <= k <= |s| && (k < |s| ==> s[k] in chars) && forall i :: from <= i < k ==> s[i] !in chars
    ensures FindFrom(s, from, chars) == k
  {
  }

  lemma TrimNothing(s: string)
    requires NoneOf(s, " ")
    ensures Trim(s) == s
  {
    assert s != "" ==> s[|s| - 1] != ' ' && s[0] != ' ';
  }

  /** What follows a term: nothing, or a space. */
  predicate EndsTerm(tail: string) {
    tail == "" || tail[0] == ' '
  }

  /** A part without any of the characters, followed by one of them or by nothing. */
  lemma PlainPart(f: string, pre: string, part: string, chars: string, tail: string)
    requires f == pre + part + tail && NoneOf(part, chars) && (tail != "" ==> tail[0] in chars)
    ensures FindFrom(f, |pre|, chars) == |pre| + |part|
    ensures f[|pre|..|pre| + |part|] == part && f[|pre| + |part|..] == tail
  {
    hide FindFrom;
    assert forall i :: |pre| <= i < |pre| + |part| ==> f[i] == part[i - |pre|];
    assert tail != "" ==> f[|pre| + |part|] == tail[0];
    FindFromIs(f, |pre|, chars, |pre| + |part|);
  }

  /** Text in front of a separator that is read as the field. */
  predicate Leads(text: string, field: string) {
    NoneOf(text, "!=") && (text != "" ==> text[0] !in " (&|") && Trim(text) == field
  }

  /** Spaces behind the field do not matter. */
  lemma {:induction false} PaddedField(field: string, pad: nat)
    requires FieldOk(field) && (field == "" ==> pad == 0)
    ensures Leads(field + Spaces(pad), field)
  {
    var text := field + Spaces(pad);
    TrimSpaces(field, pad);
    assert TrimLeft(field) == field;
  }

  lemma {:induction false} TrimSpaces(core: string, n: nat)
    requires core != "" ==> core[|core| - 1] != ' '
    ensures TrimRight(core + Spaces(n)) == core
  {
    var s := core + Spaces(n);
    if n == 0 {
      assert s == core;
    } else {
      SpacesBack(n);
      assert s[..|s| - 1] == core + Spaces(n - 1);
      TrimSpaces(core, n - 1);
    }
  }

  lemma SpacesBack(n: nat)
    requires n > 0
    ensures Spaces(n)[..n - 1] == Spaces(n - 1)
  {
  }

  /** A comparison never looks like a space, a group or an operation. */
  lemma FirstChar(text: string, field: string, equals: bool, rest: string)
    requires Leads(text, field)
    ensures (text + Separator(equals) + rest)[0] !in " (&|"
  {
  }

  function Separator(equals: bool): string {
    if equals then "=" else "!="
  }

  lemma SplitAt(f: string, pos: nat, text: string, field: string, equals: bool)
    requires pos + |text| < |f| && FindFrom(f, pos, "!=") == pos + |text|
    requires f[pos..pos + |text|] == text && Trim(text) == field && f[pos + |text|] == (if equals then '=' else '!')
    requires pos + |text| + |Separator(equals)| <= |f|
    ensures var r := SplitRight(f, pos + |text| + |Separator(equals)|);
            SplitTerm(f, pos) == Split(field, equals, r.value, r.next)
  {
    hide FindFrom, Trim, SplitRight;
  }

  lemma FieldLocated(f: string, pre: string, text: string, field: string, equals: bool, rest: string)
    requires Leads(text, field) && f == pre + text + Separator(equals) + rest
    ensures var at := |pre| + |text|;
            && FindFrom(f, |pre|, "!=") == at < |f| && f[|pre|..at] == text && Trim(text) == field
            && f[at] == (if equals then '=' else '!') && f[at + |Separator(equals)|..] == rest
  {
    var tail := Separator(equals) + rest;
    assert f == pre + text + tail;
    PlainPart(f, pre, text, "!=", tail);
    assert f[|pre| + |text|..] == tail;
  }

  lemma BareTermSplit(f: string, pre: string, text: string, field: string, equals: bool, value: string, tail: string)
    requires Leads(text, field) && ValueOk(value, false) && EndsTerm(tail)
    requires f == pre + text + Separator(equals) + (value + tail)
    ensures SplitTerm(f, |pre|) == Split(field, equals, value, |f| - |tail|)
  {
    hide FindFrom, Trim, NoneOf, SplitTerm, SplitRight, Leads, ValueOk;
    FieldLocated(f, pre, text, field, equals, value + tail);
    SplitAt(f, |pre|, text, field, equals);
    BareRight(f, pre + text + Separator(equals), value, tail);
  }

  lemma BareRight(f: string, head: string, value: string, tail: string)
    requires ValueOk(value, false) && EndsTerm(tail) && f == head + (value + tail)
    ensures SplitRight(f, |head|) == Right(value, |f| - |tail|)
  {
    hide FindFrom, Trim;
    TrimNothing(value);
    assert f == head + value + tail;
    PlainPart(f, head, value, " ", tail);
  }

  lemma QuotedTermSplit(f: string, pre: string, text: string, field: string, equals: bool, value: string, tail: string)
    requires Leads(text, field) && ValueOk(value, true) && (tail == "" || tail[0] == '\"')
    requires f == pre + text + Separator(equals) + ("\"" + value + tail)
    ensures SplitTerm(f, |pre|) == Split(field, equals, value, if tail == "" then 0 else |f| - |tail| + 1)
  {
    hide FindFrom, Trim, NoneOf, SplitTerm, SplitRight, Leads, ValueOk;
    FieldLocated(f, pre, text, field, equals, "\"" + value + tail);
    SplitAt(f, |pre|, text, field, equals);
    QuotedRight(f, pre + text + Separator(equals), value, tail);
  }

  lemma QuotedRight(f: string, head: string, value: string, tail: string)
    requires ValueOk(value, true) && (tail == "" || tail[0] == '\"') && f == head + ("\"" + value + tail)
    ensures SplitRight(f, |head|) == Right(value, if tail == "" then 0 else |f| - |tail| + 1)
  {
    hide FindFrom, Trim;
    assert f == (head + "\"") + value + tail;
    assert f[|head|] == '\"';
    PlainPart(f, head + "\"", value, "\"", tail);
    OpeningQuote(f, |head|);
  }

  /** The right-hand side cut at the next space still starts with its quote. */
  lemma OpeningQuote(f: string, from: nat)
    requires from < |f| && f[from] == '\"'
    ensures var right := Trim(f[from..FindFrom(f, from, " ")]);
            right != "" && right[0] == '\"'
  {
    hide Trim;
    var rightEnd := FindFrom(f, from, " ");
    TrimNothing(f[from..rightEnd]);
  }

  /** What the loop makes of a term's value. */
  function Continue(f: string, pos: nat, op: string, rc: bool, cur: Outcome, rounds: nat, ignore: bool,
                    meta: Meta): Outcome
    requires pos <= |f|
  {
    if !cur.Value? then cur
    else
      var next := Combine(op, rc, cur.b);
      if next.None? then UnknownOperation(op) else Exec(f, pos, "", next.value, rounds, ignore, meta)
  }

  lemma ComparisonExec(f: string, pre: string, t: Term, tail: string, op: string, rc: bool, rounds: nat,
                       ignore: bool, meta: Meta)
    requires t.Comparison? && Printable(t) && EndsTerm(tail) && f == pre + PrintTerm(t) + tail
    ensures Exec(f, |pre|, op, rc, rounds, ignore, meta)
            == Continue(f, |f| - |tail|, op, rc, TermMeaning(t, ignore, meta), rounds, ignore, meta)
  {
    hide SplitTerm, Combine, Subfilter, FieldOk, ValueOk, PrintTerm;
    ComparisonStart(f, pre, t, tail);
    ComparisonSplit(f, pre, t, tail);
  }

  lemma ComparisonStart(f: string, pre: string, t: Term, tail: string)
    requires t.Comparison? && Printable(t) && f == pre + PrintTerm(t) + tail
    ensures |pre| < |f| && f[|pre|] !in " (&|"
  {
    hide FieldOk, ValueOk, Leads;
    var value := if t.quoted then "\"" + t.value + "\"" else t.value;
    PaddedField(t.field, t.pad);
    FirstChar(t.field + Spaces(t.pad), t.field, t.equals, value);
    assert f[|pre|] == (t.field + Spaces(t.pad) + Separator(t.equals) + value)[0];
  }

  lemma ComparisonSplit(f: string, pre: string, t: Term, tail: string)
    requires t.Comparison? && Printable(t) && EndsTerm(tail) && f == pre + PrintTerm(t) + tail
    ensures |pre| < |f| && SplitTerm(f, |pre|) == Split(t.field, t.equals, t.value, |f| - |tail|)
  {
    hide SplitTerm, EndsTerm, FieldOk, ValueOk, Leads, Separator, Spaces;
    var text := t.field + Spaces(t.pad);
    PaddedField(t.field, t.pad);
    var right := if t.quoted then "\"" + t.value + "\"" else t.value;
    assert f == pre + (text + Separator(t.equals) + right) + tail;
    TermSplit(f, pre, text, t.field, t.equals, t.value, t.quoted, right, tail);
  }

  lemma TermSplit(f: string, pre: string, text: string, field: string, equals: bool, value: string, quoted: bool,
                  right: string, tail: string)
    requires Leads(text, field) && ValueOk(value, quoted) && EndsTerm(tail)
    requires right == (if quoted then "\"" + value + "\"" else value) && f == pre + (text + Separator(equals) + right) + tail
    ensures |pre| < |f| && SplitTerm(f, |pre|) == Split(field, equals, value, |f| - |tail|)
  {
    hide SplitTerm, EndsTerm, ValueOk, Leads;
    var head := pre + text + Separator(equals);
    if quoted {
      assert f == head + ("\"" + value + ("\"" + tail)) by { hide Separator; }
      QuotedTermSplit(f, pre, text, field, equals, value, "\"" + tail);
    } else {
      assert f == head + (value + tail) by { hide Separator; }
      BareTermSplit(f, pre, text, field, equals, value, tail);
    }
  }

  lemma {:induction false} TermExec(f: string, pre: string, t: Term, tail: string, op: string, rc: bool, rounds: nat,
                                    ignore: bool, meta: Meta)
    requires Printable(t) && EndsTerm(tail) && f == pre + PrintTerm(t) + tail
    ensures Exec(f, |pre|, op, rc, rounds, ignore, meta)
            == Continue(f, |f| - |tail|, op, rc, TermMeaning(t, ignore, meta), rounds, ignore, meta)
    decreases t, 1
  {
    match t
    case Comparison(_, _, _, _, _) => ComparisonExec(f, pre, t, tail, op, rc, rounds, ignore, meta);
    case Group(inner) =>
      hide Combine, Subfilter, SplitTerm;
      var p := Print(inner);
      assert f[|pre|] == '(' && f[|pre| + 1..] == p + ")" + tail;
      SubfilterOfBalanced(p, tail);
      PrintedFilter(inner, rounds, ignore, meta);
  }

  lemma {:induction false} ExprExec(f: string, pre: string, e: Expr, tail: string, rc: bool, rounds: nat,
                                    ignore: bool, meta: Meta)
    requires PrintableExpr(e) && EndsTerm(tail) && f == pre + Print(e) + tail
    ensures Exec(f, |pre|, "", rc, rounds, ignore, meta)
            == Continue(f, |f| - |tail|, "", rc, Meaning(e, ignore, meta), rounds, ignore, meta)
    decreases e, 1
  {
    match e
    case Single(term) => TermExec(f, pre, term, tail, "", rc, rounds, ignore, meta);
    case Joined(before, op, last) => JoinedExec(f, pre, e, tail, rc, rounds, ignore, meta);
  }

  lemma {:induction false} JoinedExec(f: string, pre: string, e: Expr, tail: string, rc: bool, rounds: nat,
                                      ignore: bool, meta: Meta)
    requires e.Joined? && PrintableExpr(e.before) && Printable(e.last) && EndsTerm(tail)
    requires f == pre + (Print(e.before) + " " + PrintOp(e.op) + " " + PrintTerm(e.last)) + tail
    ensures Exec(f, |pre|, "", rc, rounds, ignore, meta)
            == Continue(f, |f| - |tail|, "", rc, Meaning(e, ignore, meta), rounds, ignore, meta)
    decreases e, 0
  {
    hide Exec, Print, PrintTerm, Printable, PrintableExpr, TermMeaning, PrintOp, Combine;
    var before, op, last := e.before, e.op, e.last;
    OpText(op);
    var at, mid := pre + Print(before), " " + PrintOp(op) + " ";
    assert f == at + (mid + PrintTerm(last) + tail);
    ExprExec(f, pre, before, mid + PrintTerm(last) + tail, rc, rounds, ignore, meta);
    if Meaning(before, ignore, meta).Value? {
      var b := Meaning(before, ignore, meta).b;
      FirstValue(rc, b);
      assert f == at + mid + (PrintTerm(last) + tail);
      OperationExec(f, at, PrintOp(op), PrintTerm(last) + tail, |at + mid|, b, rounds, ignore, meta);
      assert f == (at + mid) + PrintTerm(last) + tail;
      TermExec(f, at + mid, last, tail, PrintOp(op), b, rounds, ignore, meta);
      if TermMeaning(last, ignore, meta).Value? {
        FirstValue(rc, Joint(op, b, TermMeaning(last, ignore, meta).b));
      }
    }
  }

  lemma FirstValue(rc: bool, cur: bool)
    ensures Combine("", rc, cur) == Some(cur)
  {
  }

  lemma OpText(op: Op)
    ensures |PrintOp(op)| == 2 && NoneOf(PrintOp(op), " ") && PrintOp(op)[0] in "&|"
    ensures forall rc, cur :: Combine(PrintOp(op), rc, cur) == Some(Joint(op, rc, cur))
  {
  }

  /** Any operation between two terms is read and kept for the next one. */
  lemma OperationExec(f: string, pre: string, op: string, tail: string, next: nat, rc: bool, rounds: nat,
                      ignore: bool, meta: Meta)
    requires f == pre + (" " + op + " ") + tail && NoneOf(op, " ") && op != "" && op[0] in "&|"
    requires next == |pre| + |op| + 2
    ensures next <= |f|
    ensures Exec(f, |pre|, "", rc, rounds, ignore, meta) == Exec(f, next, op, rc, rounds, ignore, meta)
  {
    hide Exec, FindFrom, NoneOf;
    OperationLocated(f, pre, op, tail);
    OperationRead(f, |pre|, op, next, rc, rounds, ignore, meta);
  }

  lemma OperationLocated(f: string, pre: string, op: string, tail: string)
    requires f == pre + (" " + op + " ") + tail && NoneOf(op, " ") && op != "" && op[0] in "&|"
    ensures var p := |pre|;
            && p + |op| + 2 <= |f| && f[p] == ' ' && f[p + 1] in "&|" && f[p + |op| + 1] == ' '
            && FindFrom(f, p + 1, " ") == p + |op| + 1 && f[p + 1..p + |op| + 1] == op
  {
    hide FindFrom, NoneOf;
    var head := pre + " ";
    assert f == head + op + (" " + tail);
    PlainPart(f, head, op, " ", " " + tail);
    assert f[|head|] == op[0];
  }

  lemma OperationRead(f: string, p: nat, op: string, next: nat, rc: bool, rounds: nat, ignore: bool, meta: Meta)
    requires next == p + |op| + 2 <= |f| && f[p] == ' ' && f[p + 1] in "&|" && f[next - 1] == ' '
    requires FindFrom(f, p + 1, " ") == next - 1 && f[p + 1..next - 1] == op
    ensures Exec(f, p, "", rc, rounds, ignore, meta) == Exec(f, next, op, rc, rounds, ignore, meta)
  {
    hide Subfilter, SplitTerm, Combine, FindFrom;
    assert Exec(f, p, "", rc, rounds, ignore, meta) == Exec(f, p + 1, "", rc, rounds, ignore, meta);
    assert Exec(f, p + 1, "", rc, rounds, ignore, meta) == Exec(f, next - 1, op, rc, rounds, ignore, meta);
  }

  /** Evaluating the text of an expression gives the expression's meaning: the left-to-right value,
      or the first missing field. */
  lemma {:induction false} PrintedFilter(e: Expr, rounds: nat, ignore: bool, meta: Meta)
    requires PrintableExpr(e)
    ensures Evaluate(Print(e), rounds, ignore, meta) == Meaning(e, ignore, meta)
    decreases e, 2
  {
    assert Print(e) == "" + Print(e) + "";
    ExprExec(Print(e), "", e, "", false, rounds, ignore, meta);
  }

  /** What a comparison asks: whether the field has the value, or with the other separator whether it has
      another one.  A missing field fulfils both if missing fields are ignored, and is an error otherwise. */
  lemma ComparisonAsks(field: string, pad: nat, value: string, quoted: bool, rounds: nat, ignore: bool, meta: Meta)
    requires FieldOk(field) && (field == "" ==> pad == 0) && ValueOk(value, quoted)
    ensures var right := if quoted then "\"" + value + "\"" else value;
            var same := Evaluate(field + Spaces(pad) + "=" + right, rounds, ignore, meta);
            var other := Evaluate(field + Spaces(pad) + "!=" + right, rounds, ignore, meta);
            if field in meta then same == Value(meta[field] == value) && other == Value(meta[field] != value)
            else if ignore then same == Value(true) && other == Value(true)
            else same == FieldMissing(field) && other == FieldMissing(field)
  {
    hide Evaluate, FieldOk, ValueOk, Spaces;
    PrintedFilter(Single(Comparison(field, pad, true, value, quoted)), rounds, ignore, meta);
    PrintedFilter(Single(Comparison(field, pad, false, value, quoted)), rounds, ignore, meta);
  }

  // ----- texts that are no expressions

  /** Nothing but spaces lets no message through. */
  lemma BlankIsFalse(n: nat, rounds: nat, ignore: bool, meta: Meta)
    ensures Evaluate(Spaces(n), rounds, ignore, meta) == Value(false)
  {
    BlankFrom(Spaces(n), 0, rounds, ignore, meta);
  }

  lemma {:induction false} BlankFrom(f: string, pos: nat, rounds: nat, ignore: bool, meta: Meta)
    requires pos <= |f| && f == Spaces(|f|)
    ensures Exec(f, pos, "", false, rounds, ignore, meta) == Value(false)
    decreases |f| - pos
  {
    if pos < |f| { BlankFrom(f, pos + 1, rounds, ignore, meta); }
  }

  /** A last term is read with the operation in front of it, known or not. */
  lemma {:induction false} LastTerm(f: string, at: string, t: Term, op: string, rc: bool, rounds: nat,
                                    ignore: bool, meta: Meta)
    requires Printable(t) && f == at + PrintTerm(t)
    ensures |at| <= |f|
    ensures Exec(f, |at|, op, rc, rounds, ignore, meta)
            == var cur := TermMeaning(t, ignore, meta);
               if !cur.Value? then cur
               else
                 var next := Combine(op, rc, cur.b);
                 if next.None? then UnknownOperation(op) else Value(next.value)
  {
    assert f == at + PrintTerm(t) + "";
    hide Print, PrintTerm, Printable, TermMeaning, Combine, Subfilter, SplitTerm;
    TermExec(f, at, t, "", op, rc, rounds, ignore, meta);
  }

  /** Between two terms without an operation the value of the first is forgotten. */
  lemma {:induction false} AdjacentTerms(e: Expr, last: Term, rounds: nat, ignore: bool, meta: Meta)
    requires PrintableExpr(e) && Printable(last)
    ensures Evaluate(Print(e) + " " + PrintTerm(last), rounds, ignore, meta)
            == if Meaning(e, ignore, meta).Value? then TermMeaning(last, ignore, meta) else Meaning(e, ignore, meta)
  {
    var p, t := Print(e), PrintTerm(last);
    var f := p + " " + t;
    assert f == "" + p + (" " + t);
    hide Exec, Print, PrintTerm, Printable, PrintableExpr, Meaning, TermMeaning;
    ExprExec(f, "", e, " " + t, false, rounds, ignore, meta);
    if Meaning(e, ignore, meta).Value? {
      var b := Meaning(e, ignore, meta).b;
      SpaceSkipped(f, |p|, |p + " "|, b, rounds, ignore, meta);
      LastTerm(f, p + " ", last, "", b, rounds, ignore, meta);
    }
  }

  lemma SpaceSkipped(f: string, pos: nat, next: nat, rc: bool, rounds: nat, ignore: bool, meta: Meta)
    requires next == pos + 1 <= |f| && f[pos] == ' '
    ensures Exec(f, pos, "", rc, rounds, ignore, meta) == Exec(f, next, "", rc, rounds, ignore, meta)
  {
    hide Subfilter, SplitTerm, Combine, FindFrom;
  }

  /** An expression and an operation, known or not, have been read. */
  lemma {:induction false} OperationReached(f: string, e: Expr, op: string, tail: string, next: nat, rounds: nat,
                                            ignore: bool, meta: Meta)
    requires PrintableExpr(e) && NoneOf(op, " ") && op != "" && op[0] in "&|"
    requires f == Print(e) + (" " + op + " ") + tail && next == |Print(e)| + |op| + 2
    ensures next <= |f|
    ensures Evaluate(f, rounds, ignore, meta)
            == var m := Meaning(e, ignore, meta);
               if m.Value? then Exec(f, next, op, m.b, rounds, ignore, meta) else m
  {
    var p, mid := Print(e), " " + op + " ";
    assert f == "" + p + (mid + tail);
    hide Exec, Print, PrintTerm, Printable, PrintableExpr, Meaning, NoneOf;
    ExprExec(f, "", e, mid + tail, false, rounds, ignore, meta);
    if Meaning(e, ignore, meta).Value? {
      OperationExec(f, p, op, tail, next, Meaning(e, ignore, meta).b, rounds, ignore, meta);
    }
  }

  /** Any other operation stops the program, once the term behind it has a value. */
  lemma {:induction false} UnknownOperationStops(e: Expr, op: string, last: Term, rounds: nat, ignore: bool, meta: Meta)
    requires PrintableExpr(e) && Printable(last) && op !in ["&&", "||"]
    requires NoneOf(op, " ") && op != "" && op[0] in "&|"
    ensures Evaluate(Print(e) + (" " + op + " ") + PrintTerm(last), rounds, ignore, meta)
            == if !Meaning(e, ignore, meta).Value? then Meaning(e, ignore, meta)
               else if !TermMeaning(last, ignore, meta).Value? then TermMeaning(last, ignore, meta)
               else UnknownOperation(op)
  {
    var at := Print(e) + (" " + op + " ");
    var f := at + PrintTerm(last);
    hide Evaluate, Exec, Print, PrintTerm, Printable, PrintableExpr, Meaning, TermMeaning, NoneOf;
    OperationReached(f, e, op, PrintTerm(last), |at|, rounds, ignore, meta);
    if Meaning(e, ignore, meta).Value? {
      LastTerm(f, at, last, op, Meaning(e, ignore, meta).b, rounds, ignore, meta);
    }
  }

  /** So does a group that is never closed. */
  lemma OpenGroupStops(s: string, rounds: nat, ignore: bool, meta: Meta)
    requires Balanced(s)
    ensures Evaluate("(" + s, rounds, ignore, meta) == NoSubfilterEnd
  {
    assert ("(" + s)[1..] == s;
  }

  /** And an exclamation mark at the end of the text, behind which nothing can be read. */
  lemma LastBangStops(field: string, rounds: nat, ignore: bool, meta: Meta)
    requires FieldOk(field)
    ensures Evaluate(field + "!", rounds, ignore, meta) == TextExhausted
  {
    hide FindFrom, Subfilter, Trim, SplitRight;
    var f := field + "!";
    assert f == "" + field + "!";
    PlainPart(f, "", field, "!=", "!");
  }
}
