/** How several jsmn_parse calls on related inputs fit together: the counting pass and the filling pass,
    going on after running out of tokens, and going on after more text has arrived. */
module JsmnPasses {
  import opened Options
  import opened Jsmn

  // ---------- one step ----------

  lemma StepCounts(js: string, cap: nat, st: State)
    requires st.Ok() && !Stops(js, st.pos)
    ensures var s := ParseStep(js, Some(cap), st, |st.toks|); s.Next? ==> s.count == |s.st.toks|
  {
    hide ScanString, ScanPrimitive, LastOpen, LastOpenContainer;
  }

  /** The filling step either fails or moves and counts as the counting step does. */
  lemma StepAgrees(js: string, cap: nat, st: State, st': State, count: nat)
    requires st.Ok() && st'.Ok() && st.pos == st'.pos && !Stops(js, st.pos) && count == |st.toks|
    ensures var fill, plain := ParseStep(js, Some(cap), st, count), ParseStep(js, None, st', count);
            && (fill.Next? ==> plain.Next? && plain.st.pos == fill.st.pos && plain.count == fill.count)
            && (plain.Next? ==> plain.count >= count)
            && (fill == Fail(st, NoMem) ==> count >= cap && (plain.Next? ==> plain.count == count + 1))
  {
    hide ScanString, ScanPrimitive, LastOpen, LastOpenContainer;
  }

  /** With more room a step can only turn "out of tokens" into something else. */
  lemma StepWithRoom(js: string, small: nat, big: nat, st: State)
    requires st.Ok() && !Stops(js, st.pos) && small <= big
    ensures var s := ParseStep(js, Some(small), st, |st.toks|);
            s == Fail(st, NoMem) || ParseStep(js, Some(big), st, |st.toks|) == s
  {
    hide ScanString, ScanPrimitive, LastOpen, LastOpenContainer;
  }

  // ---------- the counting pass and the filling pass ----------

  lemma {:induction false} FillThenCount(js: string, cap: nat, st: State, st': State)
    requires st.Ok() && st'.Ok() && st.pos == st'.pos
    requires Run(js, Some(cap), st, |st.toks|).Done?
    ensures Run(js, None, st', |st.toks|).Done?
    ensures Run(js, None, st', |st.toks|).count == Run(js, Some(cap), st, |st.toks|).count
    decreases |js| - st.pos
  {
    hide ParseStep, LastOpen;
    if !Stops(js, st.pos) {
      StepAgrees(js, cap, st, st', |st.toks|);
      StepCounts(js, cap, st);
      FillThenCount(js, cap, ParseStep(js, Some(cap), st, |st.toks|).st, ParseStep(js, None, st', |st.toks|).st);
    }
  }

  lemma {:induction false} CountGrows(js: string, st: State, count: nat)
    requires st.Ok() && Run(js, None, st, count).Done?
    ensures Run(js, None, st, count).count >= count
    decreases |js| - st.pos
  {
    hide ParseStep;
    if !Stops(js, st.pos) {
      var s := ParseStep(js, None, st, count);
      CountingStepGrows(js, st, count);
      CountGrows(js, s.st, s.count);
    }
  }

  lemma CountingStepGrows(js: string, st: State, count: nat)
    requires st.Ok() && !Stops(js, st.pos) && ParseStep(js, None, st, count).Next?
    ensures ParseStep(js, None, st, count).count >= count
  {
    hide ScanString, ScanPrimitive, LastOpen, LastOpenContainer;
  }

  lemma {:induction false} CountThenFill(js: string, cap: nat, st: State, st': State)
    requires st.Ok() && st'.Ok() && st.pos == st'.pos
    requires Run(js, None, st', |st.toks|).Done? && Run(js, None, st', |st.toks|).count <= cap
    ensures var o := Run(js, Some(cap), st, |st.toks|); o.Failed? ==> o.error != NoMem
    decreases |js| - st.pos
  {
    hide ParseStep, LastOpen;
    if !Stops(js, st.pos) {
      StepAgrees(js, cap, st, st', |st.toks|);
      StepCounts(js, cap, st);
      var fill, plain := ParseStep(js, Some(cap), st, |st.toks|), ParseStep(js, None, st', |st.toks|);
      CountGrows(js, plain.st, plain.count);
      if fill.Next? { CountThenFill(js, cap, fill.st, plain.st); }
    }
  }

  /** The count of a filling pass is the count of the counting pass, and an array as large as the counting pass
      says is always large enough. */
  lemma PassesAgree(js: string, cap: nat)
    ensures var fill, plain := Parse(js, Some(cap), START), Parse(js, None, START);
            && (fill.Done? ==> plain.Done? && plain.count == fill.count)
            && (plain.Done? && plain.count <= cap ==> fill.Done? || fill.error != NoMem)
  {
    hide Run;
    var fill, plain := Parse(js, Some(cap), START), Parse(js, None, START);
    if fill.Done? { FillThenCount(js, cap, START, START); }
    if plain.Done? && plain.count <= cap { CountThenFill(js, cap, START, START); }
  }

  // ---------- going on with a larger array ----------

  /** After NOMEM, a second call with the same parser, the filled tokens and a larger array ends exactly as one
      fresh call with the larger array. */
  lemma {:induction false} ResumeAfterNoMem(js: string, small: nat, big: nat, st: State)
    requires st.Ok() && small <= big
    requires var o := Parse(js, Some(small), st); o.Failed? && o.error == NoMem
    ensures Parse(js, Some(big), Parse(js, Some(small), st).st) == Parse(js, Some(big), st)
    decreases |js| - st.pos
  {
    hide ParseStep, LastOpen;
    StepWithRoom(js, small, big, st);
    StepCounts(js, small, st);
    var s := ParseStep(js, Some(small), st, |st.toks|);
    if s.Next? { ResumeAfterNoMem(js, small, big, s.st); }
  }

  // ---------- going on with more text ----------

  /** The text was cut inside a primitive: the last token is a primitive ending at the cut, and the character
      after the cut does not end a primitive. */
  predicate SplitsPrimitive(js: string, n: nat, st: State) {
    && st.toks != []
    && st.toks[|st.toks| - 1].kind == Primitive && st.toks[|st.toks| - 1].end == n
    && !Stops(js, n) && !IsDelimiter(js[n])
  }

  lemma {:induction false} HexOfPrefix(js: string, n: nat, pos: nat, k: nat)
    requires n <= |js|
    requires ScanHex(js[..n], pos, k).Some? && ScanHex(js[..n], pos, k).value < n
    ensures ScanHex(js, pos, k) == ScanHex(js[..n], pos, k)
    decreases k
  {
    if k > 0 && !Stops(js[..n], pos) { HexOfPrefix(js, n, pos + 1, k - 1); }
  }

  lemma {:induction false} StringOfPrefix(js: string, n: nat, pos: nat)
    requires n <= |js| && ScanString(js[..n], pos).Closed?
    ensures ScanString(js, pos) == ScanString(js[..n], pos)
    decreases n - pos
  {
    var pre := js[..n];
    if pre[pos] == '\"' {
    } else if pre[pos] == '\\' && pos + 1 < n {
      if IsEscape(pre[pos + 1]) {
        StringOfPrefix(js, n, pos + 2);
      } else {
        var h := ScanHex(pre, pos + 2, 4);
        HexOfPrefix(js, n, pos + 2, 4);
        StringOfPrefix(js, n, h.value);
      }
    } else {
      StringOfPrefix(js, n, pos + 1);
    }
  }

  /** A primitive of a prefix is the same primitive of the whole text, unless it reaches the cut. */
  lemma {:induction false} PrimitiveOfPrefix(js: string, n: nat, pos: nat)
    requires pos <= n <= |js| && ScanPrimitive(js[..n], pos).Some?
    ensures var a := ScanPrimitive(js[..n], pos).value;
            if a == n && !Stops(js, n) && !IsDelimiter(js[n])
            then ScanPrimitive(js, pos).Some? ==> ScanPrimitive(js, pos).value > n
            else ScanPrimitive(js, pos) == Some(a)
    decreases n - pos
  {
    if pos < n && !Stops(js[..n], pos) && !IsDelimiter(js[pos]) { PrimitiveOfPrefix(js, n, pos + 1); }
  }

  /** A step inside a prefix is the same step of the whole text, unless it stores a primitive cut short. */
  lemma StepOfPrefix(js: string, n: nat, cap: nat, st: State)
    requires st.Ok() && n <= |js| && !Stops(js[..n], st.pos)
    ensures var s := ParseStep(js[..n], Some(cap), st, |st.toks|);
            s.Next? ==> ParseStep(js, Some(cap), st, |st.toks|) == s || (s.st.pos == n && SplitsPrimitive(js, n, s.st))
  {
    hide ScanString, ScanPrimitive, LastOpen, LastOpenContainer;
    var pre := js[..n];
    assert pre[st.pos] == js[st.pos];
    if ScanString(pre, st.pos + 1).Closed? { StringOfPrefix(js, n, st.pos + 1); }
    if ScanPrimitive(pre, st.pos).Some? { PrimitiveOfPrefix(js, n, st.pos); }
  }

  /** No primitive reaches beyond the cursor. */
  ghost predicate Behind(st: State) {
    forall i | 0 <= i < |st.toks| && st.toks[i].kind == Primitive :: st.toks[i].end <= st.pos
  }

  lemma StepBehind(js: string, cap: nat, st: State, count: nat)
    requires st.Ok() && !Stops(js, st.pos) && Behind(st)
    ensures Behind(ParseStep(js, Some(cap), st, count).st)
  {
    hide ScanString, ScanPrimitive, LastOpenContainer;
    var s := ParseStep(js, Some(cap), st, count);
    forall i | 0 <= i < |s.st.toks| && s.st.toks[i].kind == Primitive
      ensures s.st.toks[i].end <= s.st.pos
    {
      if i < |st.toks| { assert st.toks[i].kind == Primitive ==> st.toks[i].end <= st.pos; }
    }
  }

  lemma {:induction false} ResumeForward(js: string, n: nat, cap: nat, st: State)
    requires st.Ok() && n <= |js|
    requires !SplitsPrimitive(js, n, Parse(js[..n], Some(cap), st).st)
    ensures Parse(js, Some(cap), Parse(js[..n], Some(cap), st).st) == Parse(js, Some(cap), st)
    decreases n - st.pos
  {
    hide ParseStep, LastOpen, SplitsPrimitive;
    if !Stops(js[..n], st.pos) {
      var s := ParseStep(js[..n], Some(cap), st, |st.toks|);
      if s.Next? {
        StepOfPrefix(js, n, cap, st);
        StepCounts(js[..n], cap, st);
        ResumeForward(js, n, cap, s.st);
      }
    }
  }

  /** Tokens that are closed keep their span for the rest of the run, and no token is ever dropped. */
  lemma {:induction false} ClosedKept(js: string, cap: nat, st: State, i: nat, count: nat)
    requires st.Ok() && i < |st.toks| && !IsOpen(st.toks[i])
    ensures var toks := Run(js, Some(cap), st, count).st.toks; i < |toks| && toks[i].end == st.toks[i].end
    decreases |js| - st.pos
  {
    hide ParseStep, LastOpen;
    if !Stops(js, st.pos) {
      StepKeepsClosed(js, cap, st, i, count);
      var s := ParseStep(js, Some(cap), st, count);
      if s.Next? { ClosedKept(js, cap, s.st, i, s.count); }
    }
  }

  lemma StepKeepsClosed(js: string, cap: nat, st: State, i: nat, count: nat)
    requires st.Ok() && !Stops(js, st.pos) && i < |st.toks| && !IsOpen(st.toks[i])
    ensures var toks := ParseStep(js, Some(cap), st, count).st.toks;
            i < |toks| && toks[i].end == st.toks[i].end && toks[i].start == st.toks[i].start
  {
    hide ScanString, ScanPrimitive, LastOpenContainer;
  }

  /** The step that stored a primitive cut short stores another token, or fails, on the whole text. */
  lemma SplitStepDiffers(js: string, n: nat, cap: nat, st: State)
    requires st.Ok() && n <= |js| && !Stops(js[..n], st.pos)
    requires ParseStep(js[..n], Some(cap), st, |st.toks|).Next?
    requires ParseStep(js, Some(cap), st, |st.toks|) != ParseStep(js[..n], Some(cap), st, |st.toks|)
    ensures var k, s := |st.toks|, ParseStep(js, Some(cap), st, |st.toks|);
            s.Next? ==> |s.st.toks| == k + 1 && s.st.toks[k].kind == Primitive && s.st.toks[k].end > n && !IsOpen(s.st.toks[k])
    ensures |ParseStep(js[..n], Some(cap), st, |st.toks|).st.toks| == |st.toks| + 1
  {
    hide ScanString, ScanPrimitive, LastOpen, LastOpenContainer;
    var pre := js[..n];
    assert pre[st.pos] == js[st.pos];
    if ScanString(pre, st.pos + 1).Closed? { StringOfPrefix(js, n, st.pos + 1); }
    if ScanPrimitive(pre, st.pos).Some? { PrimitiveOfPrefix(js, n, st.pos); }
  }

  lemma {:induction false} ResumeFails(js: string, n: nat, cap: nat, st: State)
    requires st.Ok() && st.pos <= n <= |js| && Behind(st) && (st.pos == n ==> !SplitsPrimitive(js, n, st))
    requires SplitsPrimitive(js, n, Parse(js[..n], Some(cap), st).st)
    ensures Parse(js, Some(cap), Parse(js[..n], Some(cap), st).st) != Parse(js, Some(cap), st)
    decreases n - st.pos
  {
    hide ParseStep, LastOpen;
    var pre, k := js[..n], |st.toks|;
    if !Stops(pre, st.pos) {
      var s, whole := ParseStep(pre, Some(cap), st, k), ParseStep(js, Some(cap), st, k);
      if s.Next? {
        StepOfPrefix(js, n, cap, st);
        StepCounts(pre, cap, st);
        if whole == s {
          StepBehind(js, cap, st, k);
          WholeStepNoSplit(js, n, cap, st);
          ResumeFails(js, n, cap, s.st);
        } else {
          SplitStepDiffers(js, n, cap, st);
          StepCounts(js, cap, st);
          assert s.st.pos == n && Stops(pre, n);
          assert Run(pre, Some(cap), s.st, s.count).st == s.st;
          ClosedKept(js, cap, s.st, k, |s.st.toks|);
          if whole.Next? {
            ClosedKept(js, cap, whole.st, k, whole.count);
          } else {
            assert Parse(js, Some(cap), st).st == st;
          }
        }
      }
    }
  }

  /** A step that the whole text makes as well does not end on a primitive cut short. */
  lemma WholeStepNoSplit(js: string, n: nat, cap: nat, st: State)
    requires st.Ok() && st.pos < n <= |js| && !Stops(js, st.pos) && Behind(st)
    requires ParseStep(js, Some(cap), st, |st.toks|).Next?
    ensures !SplitsPrimitive(js, n, ParseStep(js, Some(cap), st, |st.toks|).st)
  {
    hide ScanString, ScanPrimitive, LastOpenContainer;
    ScanPrimitiveEnds(js, st.pos);
  }

  lemma {:induction false} ScanPrimitiveEnds(js: string, pos: nat)
    ensures ScanPrimitive(js, pos).Some? ==> var a := ScanPrimitive(js, pos).value; Stops(js, a) || IsDelimiter(js[a])
    decreases |js| - pos
  {
    if !Stops(js, pos) && !IsDelimiter(js[pos]) { ScanPrimitiveEnds(js, pos + 1); }
  }

  /** Parsing a prefix, with whatever result, and then the whole text gives the same outcome and tokens as parsing the whole text once,
      exactly when the cut does not split a primitive. */
  lemma ResumeWithMoreText(js: string, n: nat, cap: nat)
    requires n <= |js|
    ensures var first := Parse(js[..n], Some(cap), START).st;
            Parse(js, Some(cap), first) == Parse(js, Some(cap), START) <==> !SplitsPrimitive(js, n, first)
  {
    hide Run;
    if SplitsPrimitive(js, n, Parse(js[..n], Some(cap), START).st) {
      ResumeFails(js, n, cap, START);
    } else {
      ResumeForward(js, n, cap, START);
    }
  }

  /** Such a cut: the number 12 read in two pieces becomes the numbers 1 and 2. */
  lemma CutNumber(cap: nat)
    requires cap >= 2
    ensures var first := Parse("12"[..1], Some(cap), START).st;
            && Parse("12"[..1], Some(cap), START).Done? && SplitsPrimitive("12", 1, first)
            && Parse("12", Some(cap), START).st.toks == [Token(Primitive, 0, 2, 0)]
            && Parse("12", Some(cap), first).st.toks == [Token(Primitive, 0, 1, 0), Token(Primitive, 1, 2, 0)]
  {
    assert "12"[..1] == "1";
    assert ScanPrimitive("1", 0) == Some(1);
    assert ScanPrimitive("12", 1) == Some(2);
    var one := State(1, [Token(Primitive, 0, 1, 0)], -1);
    assert Parse("1", Some(cap), START) == Run("1", Some(cap), one, 1) == Done(one, 1);
    var two := State(2, [Token(Primitive, 0, 1, 0), Token(Primitive, 1, 2, 0)], -1);
    assert Parse("12", Some(cap), one) == Run("12", Some(cap), two, 2) == Done(two, 2);
    var whole := State(2, [Token(Primitive, 0, 2, 0)], -1);
    assert Parse("12", Some(cap), START) == Run("12", Some(cap), whole, 1) == Done(whole, 1);
  }

  // ---------- what is rejected ----------

  ghost predicate FailsWith(js: string, cap: nat, e: Error) {
    Parse(js, Some(cap), START).Failed? && Parse(js, Some(cap), START).error == e
  }

  /** A closing bracket that closes nothing, or another kind of container, is invalid. */
  lemma RejectsBracket()
    ensures FailsWith("]", 9, Inval) && FailsWith("[}", 9, Inval)
  {
    assert Parse("[}", Some(9), START) == Run("[}", Some(9), State(1, [Token(Array, 0, -1, 0)], 0), 1);
  }

  /** So are characters that no primitive has, on either side of the printable ones. */
  lemma RejectsCharacter()
    ensures FailsWith([31 as char], 9, Inval) && FailsWith([127 as char], 9, Inval)
  {}

  /** So is an escape of another letter. */
  lemma RejectsEscape()
    ensures FailsWith("\"\\x", 9, Inval)
  {
    assert ScanString("\"\\x", 1) == Bad;
  }

  /** A container or a string without end is incomplete. */
  lemma RejectsOpen()
    ensures FailsWith("[", 9, Part) && FailsWith("\"x", 9, Part)
  {
    assert Parse("[", Some(9), START) == Run("[", Some(9), State(1, [Token(Array, 0, -1, 0)], 0), 1);
    assert ScanString("\"x", 2) == Quoted.Open && ScanString("\"x", 1) == Quoted.Open;
  }

  /** A token too many does not fit. */
  lemma RejectsToken()
    ensures FailsWith("1", 0, NoMem) && FailsWith("[", 0, NoMem) && FailsWith("\"\"", 0, NoMem)
  {
    assert ScanPrimitive("1", 0) == Some(1);
    assert ScanString("\"\"", 1) == Closed(1);
  }
}
