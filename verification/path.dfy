/** BIP32 derivation paths as `server.js` reads them: `parsePath` (lines 28-37)
    and `parentPathOf` (lines 38-41). */
module DerivationPath {
  import opened Outcomes
  import opened Text

  /** One derivation step: a child index and whether it is hardened. The index
      is unbounded here; the 31-bit limit belongs to the BIP32 library. */
  datatype Step = Step(index: nat, hardened: bool)

  const InvalidPathMessage: string := "Invalid derivation path."

  // ---------------------------------------------------------------------------
  // The regular expression ^m(\/\d+'?)*$ as a character-level recogniser

  /** `s` matches `^m(\/\d+'?)*$`. */
  predicate MatchesPathRegex(s: string) {
    |s| >= 1 && s[0] == 'm' && RegexComponents(s[1..])
  }

  /** `u` matches `(\/\d+'?)*`. */
  predicate RegexComponents(u: string)
    decreases |u|, 1
  {
    |u| == 0 || (u[0] == '/' && RegexIndex(u[1..]))
  }

  /** `u` matches `\d+'?(\/\d+'?)*`: an index, then more components. */
  predicate RegexIndex(u: string)
    decreases |u|, 0
  {
    |u| >= 1 && IsDigit(u[0]) && RegexAfterDigit(u[1..])
  }

  /** `u` matches `\d*'?(\/\d+'?)*`: what may follow a digit of an index. */
  predicate RegexAfterDigit(u: string)
    decreases |u|, 2
  {
    || RegexComponents(u)
    || (|u| >= 1 && IsDigit(u[0]) && RegexAfterDigit(u[1..]))
    || (|u| >= 1 && u[0] == '\'' && RegexComponents(u[1..]))
  }

  // ---------------------------------------------------------------------------
  // The same language seen through split('/')

  /** A segment between slashes that the regex admits: `\d+'?`. */
  predicate IsSegment(x: string) {
    || (|x| >= 1 && AllDigits(x))
    || (|x| >= 2 && x[|x| - 1] == '\'' && AllDigits(x[..|x| - 1]))
  }

  /** `\d*'?`: the rest of a segment after its first digit. */
  predicate DigitsThenQuote(x: string) {
    || AllDigits(x)
    || (|x| >= 1 && x[|x| - 1] == '\'' && AllDigits(x[..|x| - 1]))
  }

  predicate AllSegments(parts: seq<string>) {
    forall i :: 0 <= i < |parts| ==> IsSegment(parts[i])
  }

  /** `s.split('/')` is `"m"` followed by segments `\d+'?`. */
  predicate SplitForm(s: string) {
    var parts := Split(s);
    parts[0] == "m" && AllSegments(parts[1..])
  }

  lemma AllDigitsCons(c: char, y: string)
    ensures AllDigits([c] + y) <==> IsDigit(c) && AllDigits(y)
  {
    var x := [c] + y;
    if IsDigit(c) && AllDigits(y) {
      forall i | 0 <= i < |x| ensures IsDigit(x[i]) {
        if i > 0 { assert x[i] == y[i - 1]; }
      }
    }
    if AllDigits(x) {
      assert IsDigit(x[0]);
      forall i | 0 <= i < |y| ensures IsDigit(y[i]) {
        assert y[i] == x[i + 1];
      }
    }
  }

  lemma DigitsThenQuoteCons(c: char, y: string)
    ensures DigitsThenQuote([c] + y) <==> (IsDigit(c) && DigitsThenQuote(y)) || (c == '\'' && y == [])
  {
    var x := [c] + y;
    AllDigitsCons(c, y);
    if |y| >= 1 {
      assert x[..|x| - 1] == [c] + y[..|y| - 1];
      assert x[|x| - 1] == y[|y| - 1];
      AllDigitsCons(c, y[..|y| - 1]);
    } else {
      assert x[..|x| - 1] == [];
    }
  }

  lemma SegmentCons(c: char, y: string)
    ensures IsSegment([c] + y) <==> IsDigit(c) && DigitsThenQuote(y)
  {
    var x := [c] + y;
    AllDigitsCons(c, y);
    if |y| >= 1 {
      assert x[..|x| - 1] == [c] + y[..|y| - 1];
      assert x[|x| - 1] == y[|y| - 1];
      AllDigitsCons(c, y[..|y| - 1]);
    } else {
      assert x[..|x| - 1] == [];
    }
  }

  lemma AllSegmentsCons(x: string, rest: seq<string>)
    ensures AllSegments([x] + rest) <==> IsSegment(x) && AllSegments(rest)
  {
    var ps := [x] + rest;
    if IsSegment(x) && AllSegments(rest) {
      forall i | 0 <= i < |ps| ensures IsSegment(ps[i]) {
        if i > 0 { assert ps[i] == rest[i - 1]; }
      }
    }
    if AllSegments(ps) {
      assert IsSegment(ps[0]);
      forall i | 0 <= i < |rest| ensures IsSegment(rest[i]) {
        assert rest[i] == ps[i + 1];
      }
    }
  }

  /** Split-view of one character's step of `split`. */
  lemma SplitCons(u: string)
    requires |u| >= 1
    ensures u[0] == '/' ==> Split(u) == [""] + Split(u[1..])
    ensures u[0] != '/' ==> Split(u) == [[u[0]] + Split(u[1..])[0]] + Split(u[1..])[1..]
  {
  }

  lemma {:induction false} ComponentsSplit(u: string)
    ensures RegexComponents(u) <==> Split(u)[0] == "" && AllSegments(Split(u)[1..])
    decreases |u|, 1
  {
    if |u| >= 1 {
      SplitCons(u);
      var q := Split(u[1..]);
      if u[0] == '/' {
        IndexSplit(u[1..]);
        AllSegmentsCons(q[0], q[1..]);
        assert q == [q[0]] + q[1..];
        assert Split(u)[1..] == q;
      }
    }
  }

  lemma {:induction false} IndexSplit(u: string)
    ensures RegexIndex(u) <==> IsSegment(Split(u)[0]) && AllSegments(Split(u)[1..])
    decreases |u|, 0
  {
    if |u| == 0 {
      assert Split(u)[0] == "";
    } else {
      SplitCons(u);
      var q := Split(u[1..]);
      if u[0] == '/' {
        assert Split(u)[0] == "";
      } else {
        AfterDigitSplit(u[1..]);
        SegmentCons(u[0], q[0]);
        assert Split(u)[1..] == q[1..];
      }
    }
  }

  lemma {:induction false} AfterDigitSplit(u: string)
    ensures RegexAfterDigit(u) <==> DigitsThenQuote(Split(u)[0]) && AllSegments(Split(u)[1..])
    decreases |u|, 2
  {
    ComponentsSplit(u);
    if |u| == 0 {
      assert AllDigits(Split(u)[0]);
    } else {
      SplitCons(u);
      var q := Split(u[1..]);
      if u[0] == '/' {
        assert AllDigits(Split(u)[0]);
      } else {
        DigitsThenQuoteCons(u[0], q[0]);
        assert Split(u)[1..] == q[1..];
        if IsDigit(u[0]) {
          AfterDigitSplit(u[1..]);
        } else if u[0] == '\'' {
          ComponentsSplit(u[1..]);
        }
      }
    }
  }

  /** The character-level recogniser and the split view accept the same strings. */
  lemma RegexIffSplitForm(s: string)
    ensures MatchesPathRegex(s) <==> SplitForm(s)
  {
    if |s| >= 1 {
      SplitCons(s);
      var q := Split(s[1..]);
      if s[0] == '/' {
        assert Split(s)[0] == "";
      } else {
        ComponentsSplit(s[1..]);
        assert Split(s)[1..] == q[1..];
        assert Split(s)[0] == [s[0]] + q[0];
        if Split(s)[0] == "m" {
          assert |q[0]| == 0;
          assert s[0] == Split(s)[0][0] == 'm';
        }
        if s[0] == 'm' && q[0] == "" {
          assert Split(s)[0] == "m";
        }
      }
    } else {
      assert Split(s)[0] == "";
    }
  }

  // ---------------------------------------------------------------------------
  // parsePath

  /** The step one regex-admitted segment denotes: hardened iff it ends in `'`,
      index the decimal value of its digits. */
  function DecodeSegment(seg: string): Step
    requires IsSegment(seg)
  {
    var hardened := seg[|seg| - 1] == '\'';
    var digits := if hardened then seg[..|seg| - 1] else seg;
    Step(DecimalValue(digits), hardened)
  }

  function DecodeSegments(segs: seq<string>): (steps: seq<Step>)
    requires AllSegments(segs)
    ensures |steps| == |segs|
    ensures forall i :: 0 <= i < |segs| ==> steps[i] == DecodeSegment(segs[i])
  {
    seq(|segs|, i requires 0 <= i < |segs| => DecodeSegment(segs[i]))
  }

  /** `parsePath`: trim, test the regular expression, then decode each piece
      of `split('/')` after the leading `m`. */
  function ParsePath(pathStr: string): (r: Result<seq<Step>, string>)
    ensures r.Failure? ==> r.error == InvalidPathMessage
  {
    var s := Trim(pathStr);
    if !MatchesPathRegex(s) then Failure(InvalidPathMessage)
    else
      RegexIffSplitForm(s);
      Success(DecodeSegments(Split(s)[1..]))
  }

  /** `parsePath` succeeds exactly when the trimmed input, split on `/`, is `m`
      followed by `\d+'?` segments; every failure carries the path message. */
  lemma ParsePathAccepts(pathStr: string)
    ensures ParsePath(pathStr).Success? <==> SplitForm(Trim(pathStr))
    ensures ParsePath(pathStr).Failure? ==> ParsePath(pathStr).error == InvalidPathMessage
  {
    RegexIffSplitForm(Trim(pathStr));
  }

  /** One step per `/`-segment of the trimmed input, in order: hardened iff the
      segment ends in `'`, index the decimal value of the segment's digits. */
  lemma ParsePathSteps(pathStr: string)
    requires ParsePath(pathStr).Success?
    ensures var parts := Split(Trim(pathStr));
            var steps := ParsePath(pathStr).value;
            && |steps| == |parts| - 1
            && forall i :: 0 <= i < |steps| ==>
                 var seg := parts[i + 1];
                 && |seg| >= 1
                 && (steps[i].hardened <==> seg[|seg| - 1] == '\'')
                 && var digits := if steps[i].hardened then seg[..|seg| - 1] else seg;
                    |digits| >= 1 && AllDigits(digits) && steps[i].index == DecimalValue(digits)
  {
    RegexIffSplitForm(Trim(pathStr));
  }

  /** Concrete rejections: a path without the leading `m`, a non-numeric
      index, an empty segment, the empty string. */
  lemma ParsePathRejects()
    ensures ParsePath("44/0") == Failure(InvalidPathMessage)
    ensures ParsePath("m/abc") == Failure(InvalidPathMessage)
    ensures ParsePath("m//0") == Failure(InvalidPathMessage)
    ensures ParsePath("") == Failure(InvalidPathMessage)
  {
    RejectsUntrimmed("44/0");
    RejectsUntrimmed("m/abc");
    RejectsUntrimmed("m//0");
  }

  lemma RejectsUntrimmed(s: string)
    requires |s| >= 1 && !IsJsSpace(s[0]) && !IsJsSpace(s[|s| - 1])
    requires !MatchesPathRegex(s)
    ensures ParsePath(s) == Failure(InvalidPathMessage)
  {
    TrimPadded("", s, "");
    assert "" + s + "" == s;
  }

  /** `m` is the empty path. */
  lemma ParsePathRoot()
    ensures ParsePath("m") == Success([])
  {
    ParsePathText([]);
    assert PathText([]) == "m";
  }

  /** The service's default path is three hardened steps. */
  lemma ParsePathDefault()
    ensures ParsePath("m/44'/60'/0'") == Success([Step(44, true), Step(60, true), Step(0, true)])
  {
    var steps := [Step(44, true), Step(60, true), Step(0, true)];
    ParsePathText(steps);
    AccountPathText(steps);
  }

  // The lemmas about the fixed account paths below take the steps or the path
  // as a parameter pinned by `requires` rather than writing the literal in the
  // body: the recursive functions then unfold on a variable, which keeps the
  // proofs cheap for the solver.

  lemma AccountPathText(steps: seq<Step>)
    requires steps == [Step(44, true), Step(60, true), Step(0, true)]
    ensures PathText(steps) == "m/44'/60'/0'"
  {
    AccountTexts(steps);
    assert ["m"] + ["44'", "60'", "0'"] == ["m", "44'", "60'", "0'"];
    AccountPathJoin();
  }

  lemma AccountTexts(steps: seq<Step>)
    requires steps == [Step(44, true), Step(60, true), Step(0, true)]
    ensures SegmentTexts(steps) == ["44'", "60'", "0'"]
  {
    AccountSegmentTexts();
    var texts := SegmentTexts(steps);
    assert texts[0] == "44'" && texts[1] == "60'" && texts[2] == "0'";
  }

  lemma AccountPathJoin()
    ensures Join(["m", "44'", "60'", "0'"]) == "m/44'/60'/0'"
  {
    JoinOfFour("m", "44'", "60'", "0'");
  }

  /** The fixed account parent path is two hardened steps. */
  lemma ParsePathAccountParent()
    ensures ParsePath("m/44'/60'") == Success([Step(44, true), Step(60, true)])
  {
    var steps := [Step(44, true), Step(60, true)];
    ParsePathText(steps);
    AccountParentText(steps);
  }

  lemma AccountParentText(steps: seq<Step>)
    requires steps == [Step(44, true), Step(60, true)]
    ensures PathText(steps) == "m/44'/60'"
  {
    AccountParentTexts(steps);
    assert ["m"] + ["44'", "60'"] == ["m", "44'", "60'"];
    AccountParentJoin();
  }

  lemma AccountParentTexts(steps: seq<Step>)
    requires steps == [Step(44, true), Step(60, true)]
    ensures SegmentTexts(steps) == ["44'", "60'"]
  {
    AccountSegmentTexts();
    var texts := SegmentTexts(steps);
    assert texts[0] == "44'" && texts[1] == "60'";
  }

  lemma AccountParentJoin()
    ensures Join(["m", "44'", "60'"]) == "m/44'/60'"
  {
    JoinOfThree("m", "44'", "60'");
  }

  /** The segments of the account path as the regex sees them. */
  lemma AccountSegmentTexts()
    ensures SegmentText(Step(44, true)) == "44'"
    ensures SegmentText(Step(60, true)) == "60'"
    ensures SegmentText(Step(0, true)) == "0'"
  {
    assert DecimalDigits(44) == "44" by { assert DigitChar(4) == '4'; }
    assert DecimalDigits(60) == "60" by { assert DigitChar(6) == '6' && DigitChar(0) == '0'; }
    assert DecimalDigits(0) == "0" by { assert DigitChar(0) == '0'; }
  }

  lemma JoinOfThree(a: string, b: string, c: string)
    ensures Join([a, b, c]) == a + "/" + b + "/" + c
  {
    assert [a, b, c][1..] == [b, c];
    assert [b, c][1..] == [c];
    assert Join([b, c]) == b + "/" + c;
    assert a + "/" + (b + "/" + c) == a + "/" + b + "/" + c;
  }

  lemma JoinOfFour(a: string, b: string, c: string, d: string)
    ensures Join([a, b, c, d]) == a + "/" + b + "/" + c + "/" + d
  {
    assert [a, b, c, d][1..] == [b, c, d];
    JoinOfThree(b, c, d);
    assert a + "/" + (b + "/" + c + "/" + d) == a + "/" + b + "/" + c + "/" + d;
  }

  /** The parent of the service's default path is the account parent path. */
  lemma DefaultParentPath(p: string)
    requires p == "m/44'/60'/0'"
    ensures ParentPathOf(p) == "m/44'/60'"
  {
    var kept := DefaultPathParts(p);
    ParentPathOfJoin(p);
    assert kept[..3] == ["m", "44'", "60'"];
    AccountParentJoin();
  }

  /** The default path splits into `m` and its three segments. */
  lemma DefaultPathParts(p: string) returns (kept: seq<string>)
    requires p == "m/44'/60'/0'"
    ensures kept == ["m", "44'", "60'", "0'"]
    ensures Split(p) == kept
  {
    var steps := [Step(44, true), Step(60, true), Step(0, true)];
    kept := ["m"] + SegmentTexts(steps);
    assert p == Join(kept) by {
      AccountPathText(steps);
    }
    assert Split(Join(kept)) == kept by {
      DecodeTexts(steps);
      JoinedPathShape(kept);
    }
    assert kept == ["m", "44'", "60'", "0'"] by {
      AccountTexts(steps);
    }
  }

  /** White space around a path does not change how it parses. */
  lemma PaddingIgnored(lead: string, t: string, trail: string)
    requires AllSpace(lead) && AllSpace(trail)
    requires |t| > 0 && !IsJsSpace(t[0]) && !IsJsSpace(t[|t| - 1])
    ensures ParsePath(lead + t + trail) == ParsePath(t)
  {
    TrimPadded(lead, t, trail);
    TrimPadded("", t, "");
    assert "" + t + "" == t;
  }

  // ---------------------------------------------------------------------------
  // Rendering steps in BIP32 notation (the inverse of parsePath up to leading zeros)

  /** A step as a path segment: shortest decimal index, `'` when hardened. */
  function SegmentText(st: Step): string {
    DecimalDigits(st.index) + (if st.hardened then "'" else "")
  }

  function SegmentTexts(steps: seq<Step>): (texts: seq<string>)
    ensures |texts| == |steps|
    ensures forall i :: 0 <= i < |steps| ==> texts[i] == SegmentText(steps[i])
  {
    seq(|steps|, i requires 0 <= i < |steps| => SegmentText(steps[i]))
  }

  /** Steps as a path string `m/<index>['']/...`. */
  function PathText(steps: seq<Step>): string {
    Join(["m"] + SegmentTexts(steps))
  }

  /** A rendered segment is admitted by the regex, has no slash, and decodes
      back to its step. */
  lemma SegmentTextDecodes(st: Step)
    ensures IsSegment(SegmentText(st)) && SlashFree(SegmentText(st))
    ensures DecodeSegment(SegmentText(st)) == st
  {
    var d := DecimalDigits(st.index);
    var x := SegmentText(st);
    if st.hardened {
      assert x[..|x| - 1] == d;
    } else {
      assert x == d;
      assert x[|x| - 1] != '\'';
    }
  }

  /** The last character of a segment is a digit or `'`, never white space. */
  lemma SegmentEndsNonSpace(x: string)
    requires IsSegment(x)
    ensures |x| >= 1 && !IsJsSpace(x[|x| - 1])
  {
  }

  lemma SpaceIsSlashFree(s: string)
    requires AllSpace(s)
    ensures SlashFree(s)
  {
  }

  lemma DecodeTexts(steps: seq<Step>)
    ensures AllSegments(SegmentTexts(steps)) && AllSlashFree(SegmentTexts(steps))
    ensures DecodeSegments(SegmentTexts(steps)) == steps
  {
    var texts := SegmentTexts(steps);
    forall i | 0 <= i < |texts|
      ensures IsSegment(texts[i]) && SlashFree(texts[i]) && DecodeSegment(texts[i]) == steps[i]
    {
      SegmentTextDecodes(steps[i]);
    }
  }

  /** A path string in split form: `m` then segments, joined with `/`. Its
      split gives the pieces back and it neither starts nor ends with white space. */
  lemma JoinedPathShape(kept: seq<string>)
    requires |kept| >= 1 && kept[0] == "m" && AllSegments(kept[1..])
    ensures Split(Join(kept)) == kept
    ensures var t := Join(kept); |t| >= 1 && !IsJsSpace(t[0]) && !IsJsSpace(t[|t| - 1])
  {
    SegmentsSlashFree(kept);
    SplitJoin(kept);
    JoinedPathEnds(kept);
  }

  lemma SegmentsSlashFree(kept: seq<string>)
    requires |kept| >= 1 && kept[0] == "m" && AllSegments(kept[1..])
    ensures AllSlashFree(kept)
  {
    forall i | 0 <= i < |kept| ensures SlashFree(kept[i]) {
      if i > 0 { assert kept[i] == kept[1..][i - 1]; }
    }
  }

  lemma JoinedPathEnds(kept: seq<string>)
    requires |kept| >= 1 && kept[0] == "m" && AllSegments(kept[1..])
    ensures var t := Join(kept); |t| >= 1 && !IsJsSpace(t[0]) && !IsJsSpace(t[|t| - 1])
  {
    JoinFirst(kept);
    JoinLast(kept);
    if |kept| > 1 {
      assert kept[|kept| - 1] == kept[1..][|kept| - 2];
      SegmentEndsNonSpace(kept[|kept| - 1]);
    }
  }

  /** A joined path, possibly with white space in front, parses to the steps
      its segments denote. */
  lemma ParseJoined(lead: string, kept: seq<string>)
    requires AllSpace(lead)
    requires |kept| >= 1 && kept[0] == "m" && AllSegments(kept[1..])
    ensures ParsePath(lead + Join(kept)) == Success(DecodeSegments(kept[1..]))
  {
    var t := Join(kept);
    JoinedPathShape(kept);
    TrimPadded(lead, t, "");
    assert lead + t + "" == lead + t;
    assert SplitForm(t);
    RegexIffSplitForm(t);
  }

  /** Parsing the rendering of any steps gives those steps back. */
  lemma ParsePathText(steps: seq<Step>)
    ensures ParsePath(PathText(steps)) == Success(steps)
  {
    var kept := ["m"] + SegmentTexts(steps);
    DecodeTexts(steps);
    assert kept[1..] == SegmentTexts(steps);
    ParseJoined("", kept);
    assert "" + Join(kept) == Join(kept);
  }

  lemma JoinFirst(parts: seq<string>)
    requires |parts| >= 1 && |parts[0]| >= 1
    ensures |Join(parts)| >= 1 && Join(parts)[0] == parts[0][0]
  {
  }

  lemma {:induction false} JoinLast(parts: seq<string>)
    requires |parts| >= 1 && |parts[|parts| - 1]| >= 1
    ensures var last := parts[|parts| - 1];
      |Join(parts)| >= 1 && Join(parts)[|Join(parts)| - 1] == last[|last| - 1]
    decreases |parts|
  {
    if |parts| > 1 {
      JoinLast(parts[1..]);
    }
  }

  // ---------------------------------------------------------------------------
  // parentPathOf

  /** `parentPathOf`: on the raw string, `m` when `split('/')` gives at most two
      pieces, otherwise every piece but the last joined back with `/` — which
      is the input with its last `/`-piece cut off. */
  function ParentPathOf(pathStr: string): (r: string)
    ensures |Split(pathStr)| <= 2 ==> r == "m"
    ensures var parts := Split(pathStr);
      |parts| > 2 ==> Split(r) == parts[..|parts| - 1] && pathStr == r + "/" + parts[|parts| - 1]
  {
    var parts := Split(pathStr);
    if |parts| <= 2 then "m"
    else
      var r := Join(parts[..|parts| - 1]);
      SplitJoin(parts[..|parts| - 1]);
      JoinSnoc(parts[..|parts| - 1], parts[|parts| - 1]);
      assert parts[..|parts| - 1] + [parts[|parts| - 1]] == parts;
      JoinSplit(pathStr);
      r
  }

  lemma ParentPathOfJoin(pathStr: string)
    requires |Split(pathStr)| > 2
    ensures ParentPathOf(pathStr) == Join(Split(pathStr)[..|Split(pathStr)| - 1])
  {
  }

  /** How `split('/')` sees a raw path whose trimmed form is in split form:
      the same number of pieces, white space glued to the first and last. */
  lemma SplitOfRaw(pathStr: string) returns (lead: string)
    requires SplitForm(Trim(pathStr))
    ensures AllSpace(lead)
    ensures var tparts := Split(Trim(pathStr)); var pparts := Split(pathStr);
      && |pparts| == |tparts|
      && (|tparts| >= 2 ==> pparts[..|pparts| - 1] == [lead + "m"] + tparts[1..|tparts| - 1])
  {
    var trail;
    lead, trail := TrimDecomposition(pathStr);
    SplitOfPadded(lead, Trim(pathStr), trail);
  }

  /** `split('/')` of a split-form text padded with white space. */
  lemma SplitOfPadded(lead: string, t: string, trail: string)
    requires SplitForm(t) && AllSpace(lead) && AllSpace(trail)
    ensures var tparts := Split(t); var pparts := Split(lead + t + trail);
      && |pparts| == |tparts|
      && (|tparts| >= 2 ==> pparts[..|pparts| - 1] == [lead + "m"] + tparts[1..|tparts| - 1])
  {
    var tparts := Split(t);
    var n := |tparts| - 1;
    SpaceIsSlashFree(lead);
    SpaceIsSlashFree(trail);
    SplitPrefix(lead, t);
    var lparts := Split(lead + t);
    assert lparts == [lead + "m"] + tparts[1..];
    SplitSuffix(lead + t, trail);
    if n >= 1 {
      assert lparts[..n] == [lead + "m"] + tparts[1..][..n - 1];
      assert tparts[1..][..n - 1] == tparts[1..n];
    }
  }

  lemma DecodeSegmentsPrefix(segs: seq<string>, k: nat)
    requires AllSegments(segs) && k <= |segs|
    ensures AllSegments(segs[..k])
    ensures DecodeSegments(segs[..k]) == DecodeSegments(segs)[..k]
  {
  }

  /** What a successful parse says about the pieces of the raw string. */
  lemma ParsedPieces(pathStr: string, steps: seq<Step>) returns (tparts: seq<string>, lead: string)
    requires ParsePath(pathStr) == Success(steps)
    ensures tparts == Split(Trim(pathStr)) && tparts[0] == "m" && AllSegments(tparts[1..])
    ensures steps == DecodeSegments(tparts[1..]) && |steps| == |tparts| - 1
    ensures AllSpace(lead) && |Split(pathStr)| == |tparts|
    ensures |tparts| >= 2 ==> Split(pathStr)[..|tparts| - 1] == [lead + "m"] + tparts[1..|tparts| - 1]
  {
    var t := Trim(pathStr);
    RegexIffSplitForm(t);
    tparts := Split(t);
    lead := SplitOfRaw(pathStr);
  }

  /** All but the last of a run of segments decode to all but the last step. */
  lemma DecodeAllButLast(tparts: seq<string>, steps: seq<Step>)
    requires |tparts| >= 2 && AllSegments(tparts[1..]) && steps == DecodeSegments(tparts[1..])
    ensures AllSegments(tparts[..|tparts| - 1][1..])
    ensures DecodeSegments(tparts[..|tparts| - 1][1..]) == steps[..|steps| - 1]
  {
    var n := |tparts| - 1;
    DecodeSegmentsPrefix(tparts[1..], n - 1);
    assert tparts[..n][1..] == tparts[1..][..n - 1];
  }

  /** When the raw pieces, last one dropped, are `kept` with white space in
      front, the parent path is that white space followed by `kept` joined. */
  lemma ParentOfRawPieces(pathStr: string, lead: string, kept: seq<string>)
    requires |Split(pathStr)| > 2 && |kept| >= 1
    requires Split(pathStr)[..|Split(pathStr)| - 1] == [lead + kept[0]] + kept[1..]
    ensures ParentPathOf(pathStr) == lead + Join(kept)
  {
    ParentPathOfJoin(pathStr);
    JoinConsFirst(lead, kept);
  }

  /** A parsed path of two steps or more: dropping the last piece of the raw
      string leaves a path of the remaining segments. */
  lemma ParentOfLong(pathStr: string, tparts: seq<string>, lead: string, steps: seq<Step>)
    requires |tparts| >= 3 && tparts[0] == "m" && AllSegments(tparts[1..])
    requires AllSpace(lead) && |Split(pathStr)| == |tparts|
    requires Split(pathStr)[..|tparts| - 1] == [lead + "m"] + tparts[1..|tparts| - 1]
    requires steps == DecodeSegments(tparts[1..])
    ensures ParsePath(ParentPathOf(pathStr)) == Success(steps[..|steps| - 1])
  {
    var kept := tparts[..|tparts| - 1];
    DecodeAllButLast(tparts, steps);
    assert kept[0] == "m" && kept[1..] == tparts[1..|tparts| - 1];
    ParentOfRawPieces(pathStr, lead, kept);
    ParseJoined(lead, kept);
  }

  /** A path that parses to at most one step has parent `m`, which parses to
      no steps. */
  lemma ParentOfShort(pathStr: string, steps: seq<Step>)
    requires ParsePath(pathStr) == Success(steps) && |steps| <= 1
    ensures ParentPathOf(pathStr) == "m"
    ensures ParsePath("m") == Success(steps[..0])
  {
    var tparts, lead := ParsedPieces(pathStr, steps);
    assert |Split(pathStr)| <= 2;
    ParsePathRoot();
  }

  /** A path that parses to two steps or more has a parent that parses to all
      but its last step. */
  lemma ParentOfMany(pathStr: string, steps: seq<Step>)
    requires ParsePath(pathStr) == Success(steps) && |steps| >= 2
    ensures ParsePath(ParentPathOf(pathStr)) == Success(steps[..|steps| - 1])
  {
    var tparts, lead := ParsedPieces(pathStr, steps);
    ParentOfLong(pathStr, tparts, lead, steps);
  }

  /** For a path that `parsePath` reads as `steps`, the parent path parses to
      the same steps minus the last one; a path of at most one step has parent
      `m`. Leading and trailing white space of the raw string does not disturb
      how the parent parses. */
  lemma ParentPathSteps(pathStr: string, steps: seq<Step>)
    requires ParsePath(pathStr) == Success(steps)
    ensures |steps| <= 1 ==> ParentPathOf(pathStr) == "m"
    ensures |steps| >= 1 ==> ParsePath(ParentPathOf(pathStr)) == Success(steps[..|steps| - 1])
  {
    if |steps| <= 1 {
      ParentOfShort(pathStr, steps);
    } else {
      ParentOfMany(pathStr, steps);
    }
  }
}
