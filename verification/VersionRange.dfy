/** When the version arithmetic of the parser stays within a 32-bit int; outside it, it would be undefined. */
module VersionRange {
  import opened Bytes
  import opened HttpSyntax
  import opened RequestParser
  import opened ParserSoundness
  import opened ParserLanguage

  const INT_MAX := 0x7fff_ffff

  /** `version * 10 + input - '0'`: the largest value computed on the way stays within a 32-bit int. */
  predicate FitsInt(version: int, input: Byte) {
    version * 10 + input <= INT_MAX
  }

  /** The arithmetic of one step of the parser. */
  predicate StepFits(st: State, req: Request, c: Byte) {
    && ((st.MajorStart? || st.InMajor?) && IsDigit(c) ==> FitsInt(req.major, c))
    && ((st.MinorStart? || st.InMinor?) && IsDigit(c) ==> FitsInt(req.minor, c))
  }

  /** The arithmetic of every step the parser makes over `s`. */
  ghost predicate RunFits(req0: Request, s: Bytes) {
    s == [] ||
    var init := s[..|s| - 1];
    var r := Run(MethodStart, req0, init);
    RunFits(req0, init) && (r.verdict == Indeterminate ==> StepFits(r.st, r.req, s[|s| - 1]))
  }

  /** The digits of the two version numbers in a piece. */
  function MajorDigits(p: Piece): Bytes {
    match p
    case AtVerb(_) => []
    case AtUri(_, _) => []
    case AtProtocol(_, _, _) => []
    case AtMajor(_, _, x) => x
    case AtMinor(_, _, x, _) => x
    case AtStartCR(_, _, x, _) => x
    case _ => p.d.major
  }

  function MinorDigits(p: Piece): Bytes {
    match p
    case AtVerb(_) => []
    case AtUri(_, _) => []
    case AtProtocol(_, _, _) => []
    case AtMajor(_, _, _) => []
    case AtMinor(_, _, _, y) => y
    case AtStartCR(_, _, _, y) => y
    case _ => p.d.minor
  }

  /** A version number that can be read without leaving an int. */
  predicate Small(ds: Bytes) {
    Value(10, ds) + 48 <= INT_MAX
  }

  ghost predicate PieceFits(p: Piece) {
    Small(MajorDigits(p)) && Small(MinorDigits(p))
  }

  /** The last digit decides: if it can be added, so could all before it. */
  lemma SmallSnoc(ds: Bytes, c: Byte)
    requires Digits(ds) && IsDigit(c)
    ensures Small(ds + [c]) <==> Small(ds) && FitsInt(Value(10, ds), c)
  {
    ValueIsNatural(10, ds);
    DigitSnoc(ds, c);
  }

  /** Which of the digit strings a byte extends. */
  lemma NextDigits(p: Piece, c: Byte)
    requires Allowed(p, c) && !p.AtEndCR?
    ensures MajorDigits(Next(p, c)) == if p.AtMajor? && IsDigit(c) then p.major + [c] else MajorDigits(p)
    ensures MinorDigits(Next(p, c)) == if p.AtMinor? && IsDigit(c) then p.minor + [c] else MinorDigits(p)
  {
  }

  /** The arithmetic of reading one more byte of a piece. */
  predicate ByteFits(p: Piece, c: Byte) {
    && (p.AtMajor? && IsDigit(c) ==> FitsInt(Value(10, p.major), c))
    && (p.AtMinor? && IsDigit(c) ==> FitsInt(Value(10, p.minor), c))
  }

  lemma StepFitsPiece(p: Piece, st: State, req: Request, c: Byte)
    requires StateOf(p) == st && Records(p, req)
    ensures StepFits(st, req, c) <==> ByteFits(p, c)
  {
  }

  lemma NextFits(p: Piece, c: Byte)
    requires Digits(MajorDigits(p)) && Digits(MinorDigits(p)) && Allowed(p, c) && !p.AtEndCR?
    ensures PieceFits(Next(p, c)) <==> PieceFits(p) && ByteFits(p, c)
  {
    NextDigits(p, c);
    if p.AtMajor? && IsDigit(c) {
      SmallSnoc(p.major, c);
    } else if p.AtMinor? && IsDigit(c) {
      SmallSnoc(p.minor, c);
    }
  }

  lemma {:induction false} UndecidedFits(req0: Request, s: Bytes)
    requires Fresh(req0) && Run(MethodStart, req0, s).verdict == Indeterminate
    ensures RunFits(req0, s) <==> PieceFits(Feed(START, s))
  {
    if s != [] {
      var init, c := s[..|s| - 1], s[|s| - 1];
      assert s == init + [c];
      RunAppend(MethodStart, req0, init, [c]);
      UndecidedFits(req0, init);
      UndecidedIsExplained(req0, init);
      var r := Run(MethodStart, req0, init);
      RunOne(r.st, r.req, c);
      StepAdvances(Feed(START, init), init, r.st, r.req, c);
      StepFitsPiece(Feed(START, init), r.st, r.req, c);
      PieceDigits(Feed(START, init));
      NextFits(Feed(START, init), c);
    }
  }

  /** The step that decides computes nothing. */
  lemma DecidingStepFits(st: State, req: Request, c: Byte)
    requires Usable(st, req) && Step(st, req, c).verdict != Indeterminate
    ensures StepFits(st, req, c)
  {
  }

  /** Once the parser has decided no byte adds any arithmetic. */
  lemma {:induction false} NothingAfterDecision(req0: Request, a: Bytes, b: Bytes)
    requires Fresh(req0) && (b != [] ==> Run(MethodStart, req0, a).verdict != Indeterminate)
    ensures RunFits(req0, a + b) <==> RunFits(req0, a)
    decreases |b|
  {
    if b == [] {
      assert a + b == a;
    } else {
      var init := b[..|b| - 1];
      assert (a + b)[..|a + b| - 1] == a + init;
      RunAppend(MethodStart, req0, a, init);
      NothingAfterDecision(req0, a, init);
    }
  }

  /** The bytes that leave the parser undecided: all but the one that decides and what follows it. */
  function Undecided(req0: Request, s: Bytes): (r: Bytes)
    requires Fresh(req0)
    ensures r <= s
  {
    var r := Run(MethodStart, req0, s);
    s[..if r.verdict == Indeterminate then r.consumed else r.consumed - 1]
  }

  lemma UndecidedIsUndecided(req0: Request, s: Bytes)
    requires Fresh(req0)
    ensures Run(MethodStart, req0, Undecided(req0, s)).verdict == Indeterminate
  {
    if Run(MethodStart, req0, s).verdict == Indeterminate {
      assert Undecided(req0, s) == s;
    } else {
      DecidedAtLastByte(MethodStart, req0, s);
    }
  }

  lemma PieceDigits(p: Piece)
    requires ValidPiece(p)
    ensures Digits(MajorDigits(p)) && Digits(MinorDigits(p))
  {
  }

  /** Whether the input is accepted, rejected or incomplete: no step overflows iff the versions read so far are small. */
  lemma {:induction false} RunFitsInt(req0: Request, s: Bytes)
    requires Fresh(req0)
    ensures RunFits(req0, s) <==> PieceFits(Feed(START, Undecided(req0, s)))
  {
    var r := Run(MethodStart, req0, s);
    if r.verdict == Indeterminate {
      UndecidedFits(req0, s);
      assert Undecided(req0, s) == s;
    } else {
      var w := s[..r.consumed];
      DecidedAtLastByte(MethodStart, req0, s);
      DecidedPrefix(MethodStart, req0, s);
      assert w[..|w| - 1] == Undecided(req0, s);
      var before := Run(MethodStart, req0, Undecided(req0, s));
      DecidingStepFits(before.st, before.req, w[|w| - 1]);
      UndecidedFits(req0, Undecided(req0, s));
      NothingAfterDecision(req0, w, s[|w|..]);
      assert w + s[|w|..] == s;
    }
  }

  /** Reading a request overflows nowhere iff both of its version numbers are at most INT_MAX - 48. */
  lemma {:induction false} RequestFitsInt(req0: Request, d: Document, t: Bytes)
    requires Fresh(req0) && ValidDocument(d)
    ensures RunFits(req0, Print(d) + t) <==> Value(10, d.major) <= 2_147_483_599 && Value(10, d.minor) <= 2_147_483_599
  {
    SentenceIsAccepted(req0, d, t);
    ReadsToEndCR(d);
    assert Undecided(req0, Print(d) + t) == PrintHead(d) + [CR];
    RunFitsInt(req0, Print(d) + t);
  }

  ghost predicate Zeros(s: Bytes) {
    forall i | 0 <= i < |s| :: s[i] == ZERO
  }

  lemma {:induction false} LeadingZeros(zeros: Bytes, ds: Bytes)
    requires Zeros(zeros)
    ensures Value(10, zeros + ds) == Value(10, ds)
    decreases |zeros| + |ds|
  {
    if ds != [] {
      LeadingZeros(zeros, ds[..|ds| - 1]);
      assert (zeros + ds)[..|zeros + ds| - 1] == zeros + ds[..|ds| - 1];
    } else if zeros != [] {
      LeadingZeros(zeros[..|zeros| - 1], []);
      assert zeros[..|zeros| - 1] + [] == zeros[..|zeros| - 1];
      assert zeros + [] == zeros;
    } else {
      assert zeros + ds == [];
    }
  }

  /** At most nine digits after any number of leading zeros. */
  ghost predicate NineDigits(ds: Bytes) {
    exists k | 0 <= k <= |ds| <= k + 9 :: Zeros(ds[..k])
  }

  lemma NineDigitsAreSmall(ds: Bytes)
    requires Digits(ds) && NineDigits(ds)
    ensures Small(ds)
  {
    var k :| 0 <= k <= |ds| <= k + 9 && Zeros(ds[..k]);
    assert ds[..k] + ds[k..] == ds;
    LeadingZeros(ds[..k], ds[k..]);
    ValueBelowPower(10, ds[k..]);
    PowersOfTen(|ds[k..]|);
  }

  lemma PowersOfTen(k: nat)
    requires k <= 9
    ensures Power(10, k) <= 1_000_000_000
  {
    assert Power(10, 3) == 1000;
    assert Power(10, 6) == 1_000_000;
    assert Power(10, 9) == 1_000_000_000;
  }

  /** As long as no version number has more than nine significant digits, no input makes the parser overflow. */
  lemma {:induction false} NineDigitsFit(req0: Request, s: Bytes)
    requires Fresh(req0)
    requires var p := Feed(START, Undecided(req0, s)); NineDigits(MajorDigits(p)) && NineDigits(MinorDigits(p))
    ensures RunFits(req0, s)
  {
    RunFitsInt(req0, s);
    UndecidedIsUndecided(req0, s);
    UndecidedIsExplained(req0, Undecided(req0, s));
    var p := Feed(START, Undecided(req0, s));
    PieceDigits(p);
    NineDigitsAreSmall(MajorDigits(p));
    NineDigitsAreSmall(MinorDigits(p));
  }

  /** "G / HTTP/9999999999x" overflows, although it is rejected in the end. */
  lemma TenNinesOverflow(req0: Request)
    requires Fresh(req0)
    ensures var s := PrintTarget([71], [SLASH]) + (HTTP + seq(10, _ => 57)) + [120];
      !RunFits(req0, s) && Run(MethodStart, req0, s).verdict == False
  {
    var nines: Bytes := seq(10, _ => 57);
    var w := PrintTarget([71], [SLASH]) + (HTTP + nines);
    ReadsNumber([71], [SLASH], nines);
    NinesAreLarge(10);
    UnfitStaysUnfit(req0, w, [120]);
    RejectsAfter(req0, w, 120);
  }

  lemma UnfitStaysUnfit(req0: Request, w: Bytes, t: Bytes)
    requires Fresh(req0) && AllAllowed(START, w) && !PieceFits(Feed(START, w)) && |t| == 1
    ensures !RunFits(req0, w + t)
  {
    AllowedIsUndecided(req0, w);
    UndecidedFits(req0, w);
    assert (w + t)[..|w + t| - 1] == w;
  }

  lemma RejectsAfter(req0: Request, w: Bytes, c: Byte)
    requires Fresh(req0) && AllAllowed(START, w) && !Allowed(Feed(START, w), c)
    ensures Run(MethodStart, req0, w + [c]).verdict == False
  {
    AllowedIsUndecided(req0, w);
    UndecidedIsExplained(req0, w);
    var r := Run(MethodStart, req0, w);
    StepAdvances(Feed(START, w), w, r.st, r.req, c);
    RunAppend(MethodStart, req0, w, [c]);
    RunOne(r.st, r.req, c);
  }

  lemma ReadsNumber(m: Bytes, u: Bytes, x: Bytes)
    requires m != [] && Token(m) && Uri(u) && Digits(x)
    ensures Reads(START, PrintTarget(m, u) + (HTTP + x), AtMajor(m, u, x))
  {
    ReadsTarget(m, u);
    ReadsProtocol(m, u, 5);
    assert HTTP[..5] == HTTP;
    ReadsMajor(m, u, x);
    ReadsThen(AtProtocol(m, u, 0), HTTP, AtMajor(m, u, []), x, AtMajor(m, u, x));
    ReadsThen(START, PrintTarget(m, u), AtProtocol(m, u, 0), HTTP + x, AtMajor(m, u, x));
  }

  lemma {:induction false} NinesAreLarge(k: nat)
    ensures Value(10, seq(k, _ => 57)) == Power(10, k) - 1
  {
    if k > 0 {
      NinesAreLarge(k - 1);
      var nines: Bytes := seq(k, _ => 57);
      assert nines[..k - 1] == seq(k - 1, _ => 57);
    }
  }
}
