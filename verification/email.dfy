/** The e-mail shape check `/^[^\s@]+@[^\s@]+\.[^\s@]+$/.test(email)`,
    as a left-to-right automaton, proved equal to the regular expression
    read as a decomposition `A@B.C`. */
module EmailRegex {
  import JsString

  /** A character of the class `[^\s@]`. Note that `.` belongs to it. */
  predicate WordChar(c: char)
  {
    !JsString.IsSpace(c) && c != '@'
  }

  predicate AllWord(w: string)
  {
    forall i :: 0 <= i < |w| ==> WordChar(w[i])
  }

  /** `s` splits as `s[..at] + "@" + s[at+1..dot] + "." + s[dot+1..]` with
      each of the three parts a non-empty run of `[^\s@]`. */
  ghost predicate RegexSplit(s: string, at: int, dot: int)
  {
    && 0 < at && at + 1 < dot && dot + 1 < |s|
    && s[at] == '@' && s[dot] == '.'
    && AllWord(s[..at]) && AllWord(s[at + 1..dot]) && AllWord(s[dot + 1..])
  }

  /** The language of the anchored regular expression. */
  ghost predicate MatchesEmailRegex(s: string)
  {
    exists at, dot :: RegexSplit(s, at, dot)
  }

  /** Automaton states, named after what has been read so far. */
  datatype State =
    | Start      // nothing yet
    | Local      // a non-empty local part
    | AfterAt    // local part and `@`
    | Host       // at least one domain character, no usable `.` yet
    | AfterDot   // a `.` that has text before it, nothing after it yet
    | Accept     // a complete match so far
    | Reject     // no extension can match

  function Step(q: State, c: char): State
  {
    if !WordChar(c) then
      if q == Local && c == '@' then AfterAt else Reject
    else match q
      case Start => Local
      case Local => Local
      case AfterAt => Host
      case Host => if c == '.' then AfterDot else Host
      case AfterDot => Accept
      case Accept => Accept
      case Reject => Reject
  }

  function Run(q: State, w: string): State
    decreases |w|
  {
    if w == [] then q else Run(Step(q, w[0]), w[1..])
  }

  /** The executable check used by the validator. */
  predicate IsEmail(s: string)
  {
    Run(Start, s) == Accept
  }

  /** `w` has an `@` at `at` and a `.` at `dot`, with text between and
      after them, and no other `@` or white space. */
  ghost predicate SplitAt(w: string, at: int, dot: int)
  {
    && 0 <= at && at + 1 < dot && dot + 1 < |w|
    && w[at] == '@' && w[dot] == '.'
    && AllWord(w[..at]) && AllWord(w[at + 1..])
  }

  /** `w` is a run of `[^\s@]` with a `.` at or after `from` that is not
      its last character. */
  ghost predicate DotFrom(w: string, from: int)
  {
    AllWord(w) && exists dot :: 0 <= from <= dot && dot + 1 < |w| && w[dot] == '.'
  }

  /** The suffixes that lead from state `q` to acceptance. */
  ghost predicate Lang(q: State, w: string)
  {
    match q
    case Start => exists at, dot :: 1 <= at && SplitAt(w, at, dot)
    case Local => exists at, dot :: SplitAt(w, at, dot)
    case AfterAt => DotFrom(w, 1)
    case Host => DotFrom(w, 0)
    case AfterDot => w != [] && AllWord(w)
    case Accept => AllWord(w)
    case Reject => false
  }

  lemma AllWordCons(c: char, r: string)
    ensures AllWord([c] + r) <==> WordChar(c) && AllWord(r)
  {
    var w := [c] + r;
    assert w[0] == c;
    assert forall i :: 0 <= i < |r| ==> w[i + 1] == r[i];
  }

  /** One step of the automaton agrees with the suffix languages. */
  lemma LangStep(q: State, c: char, r: string)
    ensures Lang(q, [c] + r) <==> Lang(Step(q, c), r)
  {
    AllWordCons(c, r);
    match q
    case Start => StartStep(c, r);
    case Local => LocalStep(c, r);
    case AfterAt => AfterAtStep(c, r);
    case Host => HostStep(c, r);
    case AfterDot =>
    case Accept =>
    case Reject =>
  }

  lemma StartStep(c: char, r: string)
    ensures Lang(Start, [c] + r) <==> Lang(Step(Start, c), r)
  {
    var w := [c] + r;
    if Lang(Start, w) {
      var at, dot :| 1 <= at && SplitAt(w, at, dot);
      assert w[..at] == [c] + r[..at - 1];
      AllWordCons(c, r[..at - 1]);
      assert w[at + 1..] == r[at..];
      assert SplitAt(r, at - 1, dot - 1);
      assert Step(Start, c) == Local;
    }
    if Lang(Step(Start, c), r) {
      assert WordChar(c);
      var at, dot :| SplitAt(r, at, dot);
      assert w[..at + 1] == [c] + r[..at];
      AllWordCons(c, r[..at]);
      assert w[at + 2..] == r[at + 1..];
      assert SplitAt(w, at + 1, dot + 1);
    }
  }

  lemma LocalStep(c: char, r: string)
    ensures Lang(Local, [c] + r) <==> Lang(Step(Local, c), r)
  {
    var w := [c] + r;
    if Lang(Local, w) {
      var at, dot :| SplitAt(w, at, dot);
      if at == 0 {
        assert w[1..] == r;
        assert r[dot - 1] == '.';
        assert Step(Local, c) == AfterAt;
        assert DotFrom(r, 1);
      } else {
        assert w[..at] == [c] + r[..at - 1];
        AllWordCons(c, r[..at - 1]);
        assert w[at + 1..] == r[at..];
        assert SplitAt(r, at - 1, dot - 1);
        assert Step(Local, c) == Local;
      }
    }
    if Lang(Step(Local, c), r) {
      if c == '@' {
        var dot :| 1 <= dot && dot + 1 < |r| && r[dot] == '.';
        assert w[1..] == r;
        assert w[..0] == [];
        assert SplitAt(w, 0, dot + 1);
      } else {
        assert WordChar(c) && Step(Local, c) == Local;
        var at, dot :| SplitAt(r, at, dot);
        assert w[..at + 1] == [c] + r[..at];
        AllWordCons(c, r[..at]);
        assert w[at + 2..] == r[at + 1..];
        assert SplitAt(w, at + 1, dot + 1);
      }
    }
  }

  lemma AfterAtStep(c: char, r: string)
    ensures Lang(AfterAt, [c] + r) <==> Lang(Step(AfterAt, c), r)
  {
    var w := [c] + r;
    AllWordCons(c, r);
    if Lang(AfterAt, w) {
      var dot :| 1 <= dot && dot + 1 < |w| && w[dot] == '.';
      assert r[dot - 1] == '.';
      assert Step(AfterAt, c) == Host;
    }
    if Lang(Step(AfterAt, c), r) {
      assert Step(AfterAt, c) == Host;
      var dot :| 0 <= dot && dot + 1 < |r| && r[dot] == '.';
      assert w[dot + 1] == '.';
    }
  }

  lemma HostStep(c: char, r: string)
    ensures Lang(Host, [c] + r) <==> Lang(Step(Host, c), r)
  {
    var w := [c] + r;
    AllWordCons(c, r);
    if Lang(Host, w) {
      if c == '.' {
        assert Step(Host, c) == AfterDot;
        var dot :| 0 <= dot && dot + 1 < |w| && w[dot] == '.';
        assert r != [];
      } else {
        assert Step(Host, c) == Host;
        var dot :| 0 <= dot && dot + 1 < |w| && w[dot] == '.';
        assert r[dot - 1] == '.';
      }
    }
    if Lang(Step(Host, c), r) {
      if c == '.' {
        assert w[0] == '.';
      } else {
        assert Step(Host, c) == Host;
        var dot :| 0 <= dot && dot + 1 < |r| && r[dot] == '.';
        assert w[dot + 1] == '.';
      }
    }
  }

  /** Running the automaton from `q` accepts exactly `Lang(q, _)`. */
  lemma {:induction false} RunAccepts(q: State, w: string)
    ensures Run(q, w) == Accept <==> Lang(q, w)
    decreases |w|
  {
    if w != [] {
      RunAccepts(Step(q, w[0]), w[1..]);
      LangStep(q, w[0], w[1..]);
      assert [w[0]] + w[1..] == w;
    }
  }

  /** The automaton accepts exactly the strings the regular expression matches. */
  lemma IsEmailIffRegex(s: string)
    ensures IsEmail(s) <==> MatchesEmailRegex(s)
  {
    RunAccepts(Start, s);
    if IsEmail(s) {
      var at, dot :| 1 <= at && SplitAt(s, at, dot);
      assert s[at + 1..dot] == s[at + 1..][..dot - at - 1];
      assert s[dot + 1..] == s[at + 1..][dot - at..];
      assert RegexSplit(s, at, dot);
    }
    if MatchesEmailRegex(s) {
      var at, dot :| RegexSplit(s, at, dot);
      assert s[at + 1..] == s[at + 1..dot] + [s[dot]] + s[dot + 1..];
      assert SplitAt(s, at, dot);
    }
  }

  /** The shape in words: exactly one `@`, not first; a `.` after it with
      text on both sides; no white space anywhere. */
  ghost predicate EmailShape(s: string)
  {
    && !JsString.HasSpace(s)
    && exists at, dot ::
         && 0 < at && at + 1 < dot && dot + 1 < |s|
         && s[at] == '@' && s[dot] == '.'
         && (forall i :: 0 <= i < |s| && s[i] == '@' ==> i == at)
  }

  /** The regular expression accepts exactly the strings of that shape. */
  lemma RegexIffShape(s: string)
    ensures MatchesEmailRegex(s) <==> EmailShape(s)
  {
    if MatchesEmailRegex(s) {
      var at, dot :| RegexSplit(s, at, dot);
      forall i | 0 <= i < |s| && i != at
        ensures WordChar(s[i])
      {
        if i < at {
          assert s[i] == s[..at][i];
        } else if i < dot {
          assert s[i] == s[at + 1..dot][i - at - 1];
        } else if i > dot {
          assert s[i] == s[dot + 1..][i - dot - 1];
        }
      }
      assert !JsString.HasSpace(s);
    }
    if EmailShape(s) {
      var at, dot :| && 0 < at && at + 1 < dot && dot + 1 < |s|
                     && s[at] == '@' && s[dot] == '.'
                     && (forall i :: 0 <= i < |s| && s[i] == '@' ==> i == at);
      assert RegexSplit(s, at, dot);
    }
  }
}
