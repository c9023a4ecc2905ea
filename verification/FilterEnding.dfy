/** When evaluating a filter ends.  The scan can be sent back, but only to two places, and where it goes
    does not depend on the values met; so it ends unless it is sent back twice. */
module FilterEnding {
  import opened Filter
  import opened Wrappers

  /** How one sweep over the text ends: at its end, by stopping the program, by being sent back, or not
      at all because a group never ends. */
  datatype Course = Ends | Stops | Back(to: nat) | Hangs

  predicate IsOperation(op: string) {
    op == "" || op == "&&" || op == "||"
  }

  /** The comparison names a field that is there, or missing fields do not matter. */
  predicate Found(left: string, ignore: bool, meta: Meta) {
    left in meta || ignore
  }

  /** One sweep from `pos` on, with the operation read last: positions only, no values. */
  function Sweep(f: string, pos: nat, op: string, ignore: bool, meta: Meta): (c: Course)
    requires pos <= |f|
    ensures c.Back? ==> c.to <= |f|
    decreases |f|, 0, |f| - pos
  {
    if pos == |f| then Ends
    else if f[pos] == ' ' then Sweep(f, pos + 1, op, ignore, meta)
    else if f[pos] == '(' then
      var sub := Subfilter(f[pos + 1..]);
      if sub.None? then Stops
      else
        var inner := Fate(sub.value, ignore, meta);
        if !inner.Ends? then inner
        else if !IsOperation(op) then Stops
        else Sweep(f, pos + |sub.value| + 2, "", ignore, meta)
    else if f[pos] == '&' || f[pos] == '|' then
      var e := FindFrom(f, pos, " ");
      Sweep(f, e, f[pos..e], ignore, meta)
    else
      var t := SplitTerm(f, pos);
      if t.OutOfText? || !Found(t.left, ignore, meta) || !IsOperation(op) then Stops
      else if t.next <= pos then Back(t.next)
      else Sweep(f, t.next, "", ignore, meta)
  }

  /** What becomes of a filter: a first sweep and, if that is sent back, a second one from there. */
  function Fate(f: string, ignore: bool, meta: Meta): (c: Course)
    ensures !c.Back?
    decreases |f|, 1, 0
  {
    var first := Sweep(f, 0, "", ignore, meta);
    if !first.Back? then first
    else
      var second := Sweep(f, first.to, "", ignore, meta);
      if second.Back? then Hangs else second
  }

  // ----- where the scan is sent back to

  /** A missing quote sends it to the start, a missing separator behind the text's first right-hand side. */
  lemma BackOf(f: string, pos: nat)
    requires pos < |f|
    ensures var t := SplitTerm(f, pos);
            t.Split? && t.next <= pos ==> t.next == 0 || t.next == SplitRight(f, 0).next
  {
    hide Trim;
    var found := FindFrom(f, pos, "!=");
    if found < |f| {
      var from := found + if f[found] == '=' then 1 else 2;
      if from <= |f| {
        RightBehind(f, from);
      }
    }
  }

  lemma RightBehind(f: string, from: nat)
    requires from <= |f|
    ensures SplitRight(f, from).next >= from || SplitRight(f, from).next == 0
  {
    hide Trim;
    TrimShorter(f[from..FindFrom(f, from, " ")]);
  }

  lemma {:induction false} BackTo(f: string, pos: nat, op: string, ignore: bool, meta: Meta)
    requires pos <= |f|
    ensures var c := Sweep(f, pos, op, ignore, meta);
            c.Back? ==> c.to == 0 || c.to == SplitRight(f, 0).next
    decreases |f| - pos
  {
    hide Subfilter, SplitTerm, Found, Fate, SplitRight;
    if pos == |f| {
    } else if f[pos] == ' ' {
      BackTo(f, pos + 1, op, ignore, meta);
    } else if f[pos] == '(' {
      var sub := Subfilter(f[pos + 1..]);
      if sub.Some? {
        BackTo(f, pos + |sub.value| + 2, "", ignore, meta);
      }
    } else if f[pos] == '&' || f[pos] == '|' {
      var e := FindFrom(f, pos, " ");
      BackTo(f, e, f[pos..e], ignore, meta);
    } else {
      BackOf(f, pos);
      var t := SplitTerm(f, pos);
      if t.Split? && t.next > pos {
        BackTo(f, t.next, "", ignore, meta);
      }
    }
  }

  // ----- sweeps and evaluation agree

  /** The program has stopped. */
  predicate Halted(o: Outcome) {
    !o.Value? && !o.StillRunning?
  }

  /** What an evaluation must come to, given the course of its sweep; with too few rounds for the
      groups it may also not have ended yet. */
  ghost predicate Follows(f: string, c: Course, o: Outcome, rounds: nat, ignore: bool, meta: Meta) {
    || (o.StillRunning? && rounds + 1 < |f|)
    || match c
       case Ends => o.Value?
       case Stops => Halted(o)
       case Hangs => o.StillRunning?
       case Back(to) =>
         if rounds == 0 || to > |f| then o.StillRunning?
         else
           || o == Exec(f, to, "", false, rounds - 1, ignore, meta)
           || o == Exec(f, to, "", true, rounds - 1, ignore, meta)
  }

  /** The same for the whole filter. */
  ghost predicate Comes(f: string, c: Course, o: Outcome, rounds: nat) {
    match c
    case Ends => o.Value? || (o.StillRunning? && rounds < |f|)
    case Stops => Halted(o) || (o.StillRunning? && rounds < |f|)
    case Hangs => o.StillRunning?
    case Back(_) => false
  }

  lemma CombineKnown(op: string, rc: bool, cur: bool)
    ensures Combine(op, rc, cur).Some? <==> IsOperation(op)
  {
  }

  lemma CompareFound(left: string, equals: bool, right: string, ignore: bool, meta: Meta)
    ensures var o := Compare(left, equals, right, ignore, meta);
            if Found(left, ignore, meta) then o.Value? else Halted(o)
  {
  }

  lemma {:induction false} SweepFollowed(f: string, pos: nat, op: string, rc: bool, rounds: nat, ignore: bool, meta: Meta)
    requires pos <= |f|
    ensures Follows(f, Sweep(f, pos, op, ignore, meta), Exec(f, pos, op, rc, rounds, ignore, meta), rounds, ignore, meta)
    decreases |f|, 0, |f| - pos
  {
    hide Subfilter, SplitTerm, Combine, Compare, Found, Fate, IsOperation, FindFrom;
    if pos == |f| {
    } else if f[pos] == ' ' {
      SweepFollowed(f, pos + 1, op, rc, rounds, ignore, meta);
    } else if f[pos] == '(' {
      GroupFollowed(f, pos, op, rc, rounds, ignore, meta);
    } else if f[pos] == '&' || f[pos] == '|' {
      var e := FindFrom(f, pos, " ");
      SweepFollowed(f, e, f[pos..e], rc, rounds, ignore, meta);
    } else {
      var t := SplitTerm(f, pos);
      if t.Split? {
        CompareFound(t.left, t.equals, t.right, ignore, meta);
        var cur := Compare(t.left, t.equals, t.right, ignore, meta);
        if cur.Value? {
          CombineKnown(op, rc, cur.b);
          if IsOperation(op) && t.next > pos {
            SweepFollowed(f, t.next, "", Combine(op, rc, cur.b).value, rounds, ignore, meta);
          }
        }
      }
    }
  }

  lemma {:induction false} GroupFollowed(f: string, pos: nat, op: string, rc: bool, rounds: nat, ignore: bool, meta: Meta)
    requires pos < |f| && f[pos] == '('
    ensures Follows(f, Sweep(f, pos, op, ignore, meta), Exec(f, pos, op, rc, rounds, ignore, meta), rounds, ignore, meta)
    decreases |f|, 0, |f| - pos, 0
  {
    hide Subfilter, Combine, Fate, IsOperation, FindFrom;
    var sub := Subfilter(f[pos + 1..]);
    if sub.Some? {
      FateComes(sub.value, false, rounds, ignore, meta);
      var cur := Exec(sub.value, 0, "", false, rounds, ignore, meta);
      if cur.Value? {
        CombineKnown(op, rc, cur.b);
        if IsOperation(op) {
          SweepFollowed(f, pos + |sub.value| + 2, "", Combine(op, rc, cur.b).value, rounds, ignore, meta);
        }
      }
    }
  }

  /** Sent back twice, the scan is sent back for ever: it only ever goes to the same two places. */
  lemma {:induction false} Loops(f: string, to: nat, p: nat, rc: bool, rounds: nat, ignore: bool, meta: Meta)
    requires Sweep(f, 0, "", ignore, meta) == Back(to) && Sweep(f, to, "", ignore, meta).Back?
    requires Sweep(f, to, "", ignore, meta).to in {0, to} && p in {0, to}
    ensures Exec(f, p, "", rc, rounds, ignore, meta).StillRunning?
    decreases |f|, 1, rounds
  {
    hide Sweep, Exec;
    SweepFollowed(f, p, "", rc, rounds, ignore, meta);
    if rounds > 0 {
      var q := Sweep(f, p, "", ignore, meta).to;
      Loops(f, to, q, false, rounds - 1, ignore, meta);
      Loops(f, to, q, true, rounds - 1, ignore, meta);
    }
  }

  lemma {:induction false} FateComes(f: string, rc: bool, rounds: nat, ignore: bool, meta: Meta)
    ensures Comes(f, Fate(f, ignore, meta), Exec(f, 0, "", rc, rounds, ignore, meta), rounds)
    decreases |f|, 2, 0
  {
    hide Sweep, Exec, SplitRight;
    var first := Sweep(f, 0, "", ignore, meta);
    SweepFollowed(f, 0, "", rc, rounds, ignore, meta);
    if first.Back? {
      var second := Sweep(f, first.to, "", ignore, meta);
      if second.Back? {
        BackTo(f, 0, "", ignore, meta);
        BackTo(f, first.to, "", ignore, meta);
        Loops(f, first.to, 0, rc, rounds, ignore, meta);
      } else if rounds > 0 {
        SweepFollowed(f, first.to, "", false, rounds - 1, ignore, meta);
        SweepFollowed(f, first.to, "", true, rounds - 1, ignore, meta);
      }
    }
  }

  /** Exactly when evaluation never ends, for every filter text whatsoever: when the sweep from the start
      is sent back and so is the one from there, or one of them meets a group of which this is true.
      Otherwise as many rounds as the text has characters are enough. */
  lemma NeverEndsExactly(f: string, rc: bool, ignore: bool, meta: Meta)
    ensures (forall rounds: nat :: Exec(f, 0, "", rc, rounds, ignore, meta).StillRunning?)
            <==> Fate(f, ignore, meta).Hangs?
    ensures Exec(f, 0, "", rc, |f|, ignore, meta).StillRunning? <==> Fate(f, ignore, meta).Hangs?
    ensures Exec(f, 0, "", rc, |f|, ignore, meta).Value? <==> Fate(f, ignore, meta).Ends?
  {
    hide Fate, Exec;
    FateComes(f, rc, |f|, ignore, meta);
    if Fate(f, ignore, meta).Hangs? {
      forall rounds: nat ensures Exec(f, 0, "", rc, rounds, ignore, meta).StillRunning? {
        FateComes(f, rc, rounds, ignore, meta);
      }
    }
  }

  lemma {:induction false} NoGroupHangs(f: string, pos: nat, op: string, ignore: bool, meta: Meta)
    requires pos <= |f| && NoneOf(f, "(")
    ensures !Sweep(f, pos, op, ignore, meta).Hangs?
    decreases |f| - pos
  {
    hide Subfilter, SplitTerm, Found, Fate;
    if pos < |f| {
      assert f[pos] != '(';
      if f[pos] == ' ' {
        NoGroupHangs(f, pos + 1, op, ignore, meta);
      } else if f[pos] == '&' || f[pos] == '|' {
        var e := FindFrom(f, pos, " ");
        NoGroupHangs(f, e, f[pos..e], ignore, meta);
      } else {
        var t := SplitTerm(f, pos);
        if t.Split? && t.next > pos {
          NoGroupHangs(f, t.next, "", ignore, meta);
        }
      }
    }
  }

  /** Without groups: exactly when the scan is sent back twice. */
  lemma NeverEndsWithoutGroups(f: string, rc: bool, ignore: bool, meta: Meta)
    requires NoneOf(f, "(")
    ensures (forall rounds: nat :: Exec(f, 0, "", rc, rounds, ignore, meta).StillRunning?)
            <==> var first := Sweep(f, 0, "", ignore, meta);
                 first.Back? && Sweep(f, first.to, "", ignore, meta).Back?
  {
    hide Sweep, Exec;
    NeverEndsExactly(f, rc, ignore, meta);
    NoGroupHangs(f, 0, "", ignore, meta);
    var first := Sweep(f, 0, "", ignore, meta);
    if first.Back? {
      NoGroupHangs(f, first.to, "", ignore, meta);
    }
  }

  // ----- filters that are expressions, and what can be wrong at their end

  /** Every field of the expression is found. */
  predicate AllFound(e: Expr, ignore: bool, meta: Meta) {
    Meaning(e, ignore, meta).Value?
  }

  lemma {:induction false} MeaningEnds(e: Expr, ignore: bool, meta: Meta)
    ensures !Meaning(e, ignore, meta).StillRunning?
    decreases e
  {
    match e
    case Single(term) => TermMeaningEnds(term, ignore, meta);
    case Joined(before, _, last) =>
      MeaningEnds(before, ignore, meta);
      TermMeaningEnds(last, ignore, meta);
  }

  lemma {:induction false} TermMeaningEnds(t: Term, ignore: bool, meta: Meta)
    ensures !TermMeaning(t, ignore, meta).StillRunning?
    decreases t
  {
    match t
    case Comparison(_, _, _, _, _) =>
    case Group(inner) => MeaningEnds(inner, ignore, meta);
  }

  /** The filter of an expression always ends. */
  lemma ExpressionEnds(e: Expr, ignore: bool, meta: Meta)
    requires PrintableExpr(e)
    ensures Fate(Print(e), ignore, meta) == if AllFound(e, ignore, meta) then Ends else Stops
  {
    hide Fate, Exec, Print, PrintableExpr, Meaning;
    MeaningEnds(e, ignore, meta);
    PrintedFilter(e, |Print(e)|, ignore, meta);
    NeverEndsExactly(Print(e), false, ignore, meta);
  }

  /** A comparison that splits like this. */
  lemma SplitSwept(f: string, pos: nat, op: string, t: Split, ignore: bool, meta: Meta)
    requires pos < |f| && f[pos] !in " (&|" && SplitTerm(f, pos) == t && t.Split? && IsOperation(op)
    ensures t.next <= |f|
    ensures Sweep(f, pos, op, ignore, meta)
            == if !Found(t.left, ignore, meta) then Stops
               else if t.next <= pos then Back(t.next)
               else Sweep(f, t.next, "", ignore, meta)
  {
    hide SplitTerm, Found, IsOperation, Subfilter, Fate, FindFrom;
  }

  /** A group with this text. */
  lemma GroupSwept(f: string, pos: nat, op: string, p: string, ignore: bool, meta: Meta)
    requires pos < |f| && f[pos] == '(' && Subfilter(f[pos + 1..]) == Some(p) && IsOperation(op)
    requires pos + |p| + 2 <= |f|
    ensures Sweep(f, pos, op, ignore, meta)
            == var inner := Fate(p, ignore, meta);
               if inner.Ends? then Sweep(f, pos + |p| + 2, "", ignore, meta) else inner
  {
    hide SplitTerm, Found, IsOperation, Subfilter, Fate, FindFrom;
  }

  lemma TermSwept(f: string, pre: string, t: Term, tail: string, next: nat, op: string,
                  ignore: bool, meta: Meta)
    requires Printable(t) && EndsTerm(tail) && f == pre + PrintTerm(t) + tail
    requires next == |f| - |tail| && IsOperation(op)
    ensures Sweep(f, |pre|, op, ignore, meta)
            == if TermMeaning(t, ignore, meta).Value? then Sweep(f, next, "", ignore, meta) else Stops
  {
    hide *;
    if t.Comparison? {
      ComparisonSwept(f, pre, t, tail, next, op, ignore, meta);
    } else {
      GroupTermSwept(f, pre, t, tail, next, op, ignore, meta);
    }
  }

  lemma ComparisonSwept(f: string, pre: string, t: Term, tail: string, next: nat, op: string,
                        ignore: bool, meta: Meta)
    requires t.Comparison? && Printable(t) && EndsTerm(tail) && f == pre + PrintTerm(t) + tail
    requires next == |f| - |tail| && IsOperation(op)
    ensures Sweep(f, |pre|, op, ignore, meta)
            == if TermMeaning(t, ignore, meta).Value? then Sweep(f, next, "", ignore, meta) else Stops
  {
    ComparisonStart(f, pre, t, tail);
    ComparisonSplit(f, pre, t, tail);
    ComparisonLength(t);
    assert |pre| < next;
    hide *;
    ComparisonAt(f, |pre|, op, t, next, ignore, meta);
  }

  lemma ComparisonAt(f: string, pos: nat, op: string, t: Term, next: nat, ignore: bool, meta: Meta)
    requires t.Comparison? && pos < next <= |f| && f[pos] !in " (&|" && IsOperation(op)
    requires SplitTerm(f, pos) == Split(t.field, t.equals, t.value, next)
    ensures Sweep(f, pos, op, ignore, meta)
            == if TermMeaning(t, ignore, meta).Value? then Sweep(f, next, "", ignore, meta) else Stops
  {
    hide Sweep, SplitTerm, IsOperation;
    SplitSwept(f, pos, op, Split(t.field, t.equals, t.value, next), ignore, meta);
  }

  lemma ComparisonLength(t: Term)
    requires t.Comparison?
    ensures PrintTerm(t) != ""
  {
  }

  lemma GroupTermSwept(f: string, pre: string, t: Term, tail: string, next: nat, op: string,
                       ignore: bool, meta: Meta)
    requires t.Group? && Printable(t) && f == pre + PrintTerm(t) + tail
    requires next == |f| - |tail| && IsOperation(op)
    ensures Sweep(f, |pre|, op, ignore, meta)
            == if TermMeaning(t, ignore, meta).Value? then Sweep(f, next, "", ignore, meta) else Stops
  {
    GroupLocated(f, pre, t.inner, tail);
    hide PrintTerm, Print, Balanced, Subfilter, Sweep, IsOperation, TermMeaning, PrintableExpr;
    GroupAt(f, |pre|, op, t.inner, next, ignore, meta);
  }

  lemma GroupAt(f: string, pos: nat, op: string, inner: Expr, next: nat, ignore: bool, meta: Meta)
    requires pos < |f| && f[pos] == '(' && next == pos + |Print(inner)| + 2 <= |f|
    requires Subfilter(f[pos + 1..]) == Some(Print(inner)) && IsOperation(op) && PrintableExpr(inner)
    ensures Sweep(f, pos, op, ignore, meta)
            == if TermMeaning(Group(inner), ignore, meta).Value? then Sweep(f, next, "", ignore, meta) else Stops
  {
    hide Sweep, Subfilter, IsOperation, Fate, Meaning, Print, PrintableExpr;
    ExpressionEnds(inner, ignore, meta);
    GroupSwept(f, pos, op, Print(inner), ignore, meta);
  }

  lemma GroupLocated(f: string, pre: string, inner: Expr, tail: string)
    requires Balanced(Print(inner)) && f == pre + PrintTerm(Group(inner)) + tail
    ensures |pre| + |Print(inner)| + 2 == |f| - |tail| && f[|pre|] == '('
    ensures Subfilter(f[|pre| + 1..]) == Some(Print(inner))
  {
    hide Print, Balanced, Subfilter;
    var p := Print(inner);
    assert PrintTerm(Group(inner)) == "(" + p + ")";
    assert f[|pre| + 1..] == p + ")" + tail;
    SubfilterOfBalanced(p, tail);
  }

  lemma OperationSwept(f: string, pre: string, op: Op, tail: string, ignore: bool, meta: Meta)
    requires f == pre + (" " + PrintOp(op) + " ") + tail
    ensures |pre| + 4 <= |f| && IsOperation(PrintOp(op))
    ensures Sweep(f, |pre|, "", ignore, meta) == Sweep(f, |pre| + 4, PrintOp(op), ignore, meta)
  {
    hide Subfilter, SplitTerm, FindFrom, Fate, Found;
    var p := |pre|;
    assert f[p] == ' ' && f[p + 1] == PrintOp(op)[0] && f[p + 2] == PrintOp(op)[1] && f[p + 3] == ' ';
    FindFromIs(f, p + 1, " ", p + 3);
    assert f[p + 1..p + 3] == PrintOp(op);
    assert Sweep(f, p, "", ignore, meta) == Sweep(f, p + 1, "", ignore, meta);
    assert Sweep(f, p + 1, "", ignore, meta) == Sweep(f, p + 3, PrintOp(op), ignore, meta);
  }

  /** The text of the expression's first term. */
  function FirstText(e: Expr): string {
    match e
    case Single(term) => PrintTerm(term)
    case Joined(before, _, _) => FirstText(before)
  }

  lemma {:induction false} FirstTextLeads(e: Expr)
    ensures FirstText(e) <= Print(e)
    decreases e
  {
    if e.Joined? { FirstTextLeads(e.before); }
  }

  /** An expression is swept over from its start, and also from behind its first term. */
  lemma {:induction false} ExprSwept(f: string, pre: string, e: Expr, tail: string, ignore: bool, meta: Meta)
    requires PrintableExpr(e) && EndsTerm(tail) && f == pre + Print(e) + tail
    ensures |pre| + |FirstText(e)| <= |f|
    ensures Sweep(f, |pre|, "", ignore, meta)
            == if AllFound(e, ignore, meta) then Sweep(f, |f| - |tail|, "", ignore, meta) else Stops
    ensures AllFound(e, ignore, meta) ==>
              Sweep(f, |pre| + |FirstText(e)|, "", ignore, meta) == Sweep(f, |f| - |tail|, "", ignore, meta)
    decreases e
  {
    hide Sweep, PrintTerm, Printable, TermMeaning, PrintOp;
    FirstTextLeads(e);
    match e
    case Single(term) => TermSwept(f, pre, term, tail, |f| - |tail|, "", ignore, meta);
    case Joined(before, op, last) => JoinedSwept(f, pre, e, tail, ignore, meta);
  }

  lemma {:induction false} JoinedSwept(f: string, pre: string, e: Expr, tail: string, ignore: bool, meta: Meta)
    requires e.Joined? && PrintableExpr(e.before) && Printable(e.last) && EndsTerm(tail)
    requires f == pre + (Print(e.before) + " " + PrintOp(e.op) + " " + PrintTerm(e.last)) + tail
    ensures |pre| + |FirstText(e)| <= |f|
    ensures Sweep(f, |pre|, "", ignore, meta)
            == if AllFound(e, ignore, meta) then Sweep(f, |f| - |tail|, "", ignore, meta) else Stops
    ensures AllFound(e, ignore, meta) ==>
              Sweep(f, |pre| + |FirstText(e)|, "", ignore, meta) == Sweep(f, |f| - |tail|, "", ignore, meta)
    decreases e, 0
  {
    hide Sweep, Print, PrintTerm, Printable, PrintableExpr, TermMeaning, PrintOp, IsOperation;
    var before, op, last := e.before, e.op, e.last;
    var at, mid := pre + Print(before), " " + PrintOp(op) + " ";
    assert f == at + (mid + PrintTerm(last) + tail);
    ExprSwept(f, pre, before, mid + PrintTerm(last) + tail, ignore, meta);
    assert f == at + mid + (PrintTerm(last) + tail);
    OperationSwept(f, at, op, PrintTerm(last) + tail, ignore, meta);
    OpText(op);
    assert f == (at + mid) + PrintTerm(last) + tail;
    TermSwept(f, at + mid, last, tail, |f| - |tail|, PrintOp(op), ignore, meta);
  }

  lemma FieldLeads(field: string)
    requires FieldOk(field)
    ensures Leads(field, field)
  {
    assert field + Spaces(0) == field;
    PaddedField(field, 0);
  }

  /** A comparison whose quoted value is never closed sends the scan back to the start. */
  lemma OpenQuoteSwept(f: string, pre: string, field: string, equals: bool, value: string, op: string,
                       ignore: bool, meta: Meta)
    requires FieldOk(field) && ValueOk(value, true) && f == pre + field + Separator(equals) + ("\"" + value)
    requires IsOperation(op)
    ensures |pre| <= |f|
    ensures Sweep(f, |pre|, op, ignore, meta) == if Found(field, ignore, meta) then Back(0) else Stops
  {
    hide Sweep, SplitTerm, FieldOk, ValueOk, IsOperation, Separator, Found;
    assert "\"" + value + "" == "\"" + value;
    FieldLeads(field);
    QuotedTermSplit(f, pre, field, field, equals, value, "");
    FirstChar(field, field, equals, "\"" + value);
    assert f == pre + (field + Separator(equals) + ("\"" + value));
    assert f[|pre|] == (field + Separator(equals) + ("\"" + value))[0];
    SplitSwept(f, |pre|, op, Split(field, equals, value, 0), ignore, meta);
  }

  /** So a filter that is only such a comparison never ends, unless the field is missing. */
  lemma LoneOpenQuoteNeverEnds(field: string, equals: bool, value: string, rc: bool, ignore: bool, meta: Meta)
    requires FieldOk(field) && ValueOk(value, true)
    ensures var f := field + Separator(equals) + ("\"" + value);
            (forall rounds: nat :: Exec(f, 0, "", rc, rounds, ignore, meta).StillRunning?)
            <==> Found(field, ignore, meta)
  {
    hide Sweep, Exec, FieldOk, ValueOk, Separator, Found;
    var f := field + Separator(equals) + ("\"" + value);
    assert f == "" + field + Separator(equals) + ("\"" + value);
    OpenQuoteSwept(f, "", field, equals, value, "", ignore, meta);
    NeverEndsExactly(f, rc, ignore, meta);
  }

  /** Nor does one that ends in such a comparison behind any expression. */
  lemma OpenQuoteNeverEnds(e: Expr, op: Op, field: string, equals: bool, value: string, rc: bool,
                           ignore: bool, meta: Meta)
    requires PrintableExpr(e) && FieldOk(field) && ValueOk(value, true)
    ensures var f := Print(e) + (" " + PrintOp(op) + " ") + (field + Separator(equals) + ("\"" + value));
            (forall rounds: nat :: Exec(f, 0, "", rc, rounds, ignore, meta).StillRunning?)
            <==> AllFound(e, ignore, meta) && Found(field, ignore, meta)
  {
    hide Sweep, Exec, FieldOk, ValueOk, Separator, Found, Print, PrintableExpr, PrintOp, AllFound, IsOperation;
    var p, mid, open := Print(e), " " + PrintOp(op) + " ", field + Separator(equals) + ("\"" + value);
    var f := p + mid + open;
    assert f == "" + p + (mid + open);
    ExprSwept(f, "", e, mid + open, ignore, meta);
    OperationSwept(f, p, op, open, ignore, meta);
    OpText(op);
    assert f == (p + mid) + field + Separator(equals) + ("\"" + value);
    OpenQuoteSwept(f, p + mid, field, equals, value, PrintOp(op), ignore, meta);
    NeverEndsExactly(f, rc, ignore, meta);
  }

  /** A term without a separator is compared with the text before the first space, and the scan goes on
      from that space. */
  lemma BareWordSplit(f: string, pre: string, word: string, first: string, tail: string)
    requires f == pre + word && FieldOk(word)
    requires f == first + tail && ValueOk(first, false) && EndsTerm(tail)
    ensures |pre| <= |f| && (|pre| < |f| ==> SplitTerm(f, |pre|) == Split(word, true, first, |first|))
  {
    hide FieldOk, ValueOk, SplitRight, FindFrom, Trim;
    assert f == pre + word + "";
    WordChars(word);
    PlainPart(f, pre, word, "!=", "");
    FieldLeads(word);
    assert f == "" + (first + tail);
    BareRight(f, "", first, tail);
  }

  lemma WordChars(word: string)
    requires FieldOk(word)
    ensures NoneOf(word, "!=")
    ensures word != "" ==> word[0] !in " (&|"
  {
  }

  /** Alone, and without spaces, such a term is compared with itself, and that is all. */
  lemma LoneWordEnds(word: string, rc: bool, rounds: nat, ignore: bool, meta: Meta)
    requires FieldOk(word) && ValueOk(word, false) && word != ""
    ensures Exec(word, 0, "", rc, rounds, ignore, meta)
            == if word in meta then Value(meta[word] == word)
               else if ignore then Value(true)
               else FieldMissing(word)
  {
    hide SplitTerm, Subfilter, FieldOk, ValueOk, FindFrom;
    assert word == "" + word && word == word + "";
    WordChars(word);
    BareWordSplit(word, "", word, word, "");
    FirstValue(rc, false);
    FirstValue(rc, true);
  }

  /** Behind an expression whose first term has no space in its text, it makes evaluation go on for ever,
      unless a field is missing. */
  lemma BareWordNeverEnds(e: Expr, op: Op, word: string, rc: bool, ignore: bool, meta: Meta)
    requires PrintableExpr(e) && ValueOk(FirstText(e), false)
    requires FieldOk(word) && word != ""
    ensures var f := Print(e) + (" " + PrintOp(op) + " ") + word;
            (forall rounds: nat :: Exec(f, 0, "", rc, rounds, ignore, meta).StillRunning?)
            <==> AllFound(e, ignore, meta) && Found(word, ignore, meta)
  {
    hide Sweep, Exec, FieldOk, ValueOk, Found, Print, PrintableExpr, PrintOp, AllFound, IsOperation, FirstText;
    var p, mid, first := Print(e), " " + PrintOp(op) + " ", FirstText(e);
    var f := p + mid + word;
    assert f == "" + p + (mid + word);
    ExprSwept(f, "", e, mid + word, ignore, meta);
    OperationSwept(f, p, op, word, ignore, meta);
    OpText(op);
    FirstTextLeads(e);
    FirstTextEnds(e);
    assert f == first + (p[|first|..] + mid + word);
    WordSwept(f, p + mid, word, first, p[|first|..] + mid + word, PrintOp(op), ignore, meta);
    NeverEndsExactly(f, rc, ignore, meta);
  }

  lemma WordSwept(f: string, pre: string, word: string, first: string, tail: string, op: string, ignore: bool, meta: Meta)
    requires f == pre + word && FieldOk(word) && word != "" && IsOperation(op)
    requires f == first + tail && ValueOk(first, false) && EndsTerm(tail) && |first| <= |pre|
    ensures |pre| <= |f|
    ensures Sweep(f, |pre|, op, ignore, meta) == if Found(word, ignore, meta) then Back(|first|) else Stops
  {
    hide Sweep, SplitTerm, FieldOk, ValueOk, IsOperation, Found;
    WordChars(word);
    BareWordSplit(f, pre, word, first, tail);
    assert f[|pre|] == word[0];
    SplitSwept(f, |pre|, op, Split(word, true, first, |first|), ignore, meta);
  }

  lemma {:induction false} FirstTextEnds(e: Expr)
    ensures FirstText(e) <= Print(e) && EndsTerm(Print(e)[|FirstText(e)|..])
    decreases e
  {
    hide PrintTerm, PrintOp;
    FirstTextLeads(e);
    if e.Joined? {
      FirstTextEnds(e.before);
      Behind(Print(e.before), |FirstText(e)|, " " + (PrintOp(e.op) + " " + PrintTerm(e.last)));
      assert Print(e) == Print(e.before) + (" " + (PrintOp(e.op) + " " + PrintTerm(e.last)));
    } else {
      assert Print(e)[|FirstText(e)|..] == "";
    }
  }

  lemma Behind(s: string, n: nat, more: string)
    requires n <= |s| && EndsTerm(s[n..]) && more != "" && more[0] == ' '
    ensures EndsTerm((s + more)[n..])
  {
    assert (s + more)[n..] == s[n..] + more;
  }
}
