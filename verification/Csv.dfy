/** helpers/helper.cpp: trimming and splitting lines at a one-character delimiter. */
module Csv {
  import opened Bytes

  /** " \n\r\t\f\v" */
  predicate IsWhitespace(c: Byte) {
    c == 32 || c == 10 || c == 13 || c == 9 || c == 12 || c == 11
  }

  /** The space and the five control bytes from the tab to the carriage return. */
  lemma WhitespaceRange(c: Byte)
    ensures IsWhitespace(c) <==> 9 <= c <= 13 || c == 32
  {
  }

  predicate AllWhitespace(s: Bytes) {
    forall i | 0 <= i < |s| :: IsWhitespace(s[i])
  }

  function Ltrim(s: Bytes): Bytes {
    if s == [] then [] else if IsWhitespace(s[0]) then Ltrim(s[1..]) else s
  }

  function Rtrim(s: Bytes): Bytes {
    if s == [] then [] else if IsWhitespace(s[|s| - 1]) then Rtrim(s[..|s| - 1]) else s
  }

  function Trim(s: Bytes): Bytes {
    Rtrim(Ltrim(s))
  }

  /** Neither begins nor ends with whitespace. */
  predicate Trimmed(s: Bytes) {
    s == [] || (!IsWhitespace(s[0]) && !IsWhitespace(s[|s| - 1]))
  }

  lemma {:induction false} LtrimShape(s: Bytes) returns (w: Bytes)
    ensures AllWhitespace(w) && s == w + Ltrim(s)
    ensures Ltrim(s) == [] || !IsWhitespace(Ltrim(s)[0])
  {
    if s == [] || !IsWhitespace(s[0]) {
      w := [];
      assert s == [] + s;
    } else {
      var v := LtrimShape(s[1..]);
      w := [s[0]] + v;
      assert s == [s[0]] + s[1..];
    }
  }

  lemma {:induction false} RtrimShape(s: Bytes) returns (w: Bytes)
    ensures AllWhitespace(w) && s == Rtrim(s) + w
    ensures Rtrim(s) == [] || !IsWhitespace(Rtrim(s)[|Rtrim(s)| - 1])
  {
    if s == [] || !IsWhitespace(s[|s| - 1]) {
      w := [];
      assert s == s + [];
    } else {
      var v := RtrimShape(s[..|s| - 1]);
      w := v + [s[|s| - 1]];
      assert s == s[..|s| - 1] + [s[|s| - 1]];
    }
  }

  /** Trimming cuts whitespace off both ends, and what is left has none at its ends. */
  lemma TrimShape(s: Bytes) returns (left: Bytes, right: Bytes)
    ensures AllWhitespace(left) && AllWhitespace(right)
    ensures s == left + Trim(s) + right && Trimmed(Trim(s))
  {
    left := LtrimShape(s);
    right := RtrimShape(Ltrim(s));
    assert left + (Trim(s) + right) == left + Trim(s) + right;
    assert Trim(s) != [] ==> Trim(s)[0] == Ltrim(s)[0];
  }

  lemma {:induction false} LtrimPadded(w: Bytes, s: Bytes)
    requires AllWhitespace(w)
    ensures Ltrim(w + s) == Ltrim(s)
    decreases |w|
  {
    if w == [] {
      assert w + s == s;
    } else {
      assert (w + s)[1..] == w[1..] + s;
      LtrimPadded(w[1..], s);
    }
  }

  lemma {:induction false} RtrimPadded(s: Bytes, w: Bytes)
    requires AllWhitespace(w)
    ensures Rtrim(s + w) == Rtrim(s)
    decreases |w|
  {
    if w == [] {
      assert s + w == s;
    } else {
      assert (s + w)[..|s + w| - 1] == s + w[..|w| - 1];
      RtrimPadded(s, w[..|w| - 1]);
    }
  }

  /** Whatever whitespace is put around a trimmed field, trimming gives the field back. */
  lemma TrimPadded(left: Bytes, field: Bytes, right: Bytes)
    requires AllWhitespace(left) && AllWhitespace(right) && Trimmed(field)
    ensures Trim(left + field + right) == field
  {
    assert left + field + right == left + (field + right);
    LtrimPadded(left, field + right);
    if field == [] {
      assert field + right == right + [];
      LtrimPadded(right, []);
    } else {
      RtrimPadded(field, right);
    }
  }

  /** The result is determined by being trimmed and padded with whitespace only; so trimming twice changes nothing. */
  lemma TrimIdempotent(s: Bytes)
    ensures Trim(Trim(s)) == Trim(s)
  {
    var left, right := TrimShape(s);
    TrimPadded([], Trim(s), []);
    assert [] + Trim(s) + [] == Trim(s);
  }

  /** The pieces between delimiters: what splitting should mean. */
  function Pieces(line: Bytes, d: Byte): (r: seq<Bytes>)
    ensures r != []
    decreases |line|
  {
    var i := FirstOf(line, d);
    if i == |line| then [line] else [line[..i]] + Pieces(line[i + 1..], d)
  }

  /** The trimmed pieces that are not blank. */
  function Clean(pieces: seq<Bytes>): seq<Bytes> {
    if pieces == [] then []
    else
      var field := Trim(pieces[|pieces| - 1]);
      Clean(pieces[..|pieces| - 1]) + if field == [] then [] else [field]
  }

  /** What the code makes of the piece after the last delimiter: too short, it is dropped; alone, it loses its last byte. */
  function LastPiece(pieces: seq<Bytes>): seq<Bytes>
    requires pieces != []
  {
    var last := pieces[|pieces| - 1];
    if |last| <= 1 then [] else if |pieces| == 1 then [last[..|last| - 1]] else [last]
  }

  function Split(line: Bytes, d: Byte): seq<Bytes> {
    var pieces := Pieces(line, d);
    Clean(pieces[..|pieces| - 1] + LastPiece(pieces))
  }

  lemma {:induction false} CleanAppend(a: seq<Bytes>, b: seq<Bytes>)
    ensures Clean(a + b) == Clean(a) + Clean(b)
    decreases |b|
  {
    if b == [] {
      assert a + b == a;
    } else {
      assert (a + b)[..|a + b| - 1] == a + b[..|b| - 1];
      CleanAppend(a, b[..|b| - 1]);
    }
  }

  lemma SplitLast(pieces: seq<Bytes>, scan: seq<Bytes>, rest: Bytes)
    requires pieces == scan + [rest]
    ensures pieces[..|pieces| - 1] == scan && pieces[|pieces| - 1] == rest && |pieces| == |scan| + 1
  {
  }

  /** Scanning has found `scan`, and the rest of the line begins at `start`. */
  ghost predicate Scanned(line: Bytes, d: Byte, scan: seq<Bytes>, start: nat) {
    start <= |line| && Pieces(line, d) == scan + Pieces(line[start..], d)
  }

  lemma NextPiece(line: Bytes, d: Byte, scan: seq<Bytes>, start: nat, curr: nat)
    requires Scanned(line, d, scan, start)
    requires curr == start + FirstOf(line[start..], d) && curr < |line|
    ensures Scanned(line, d, scan + [line[start..curr]], curr + 1)
  {
    var rest, i := line[start..], curr - start;
    var token, tail := line[start..curr], Pieces(line[curr + 1..], d);
    assert rest[..i] == token && rest[i + 1..] == line[curr + 1..];
    assert Pieces(rest, d) == [token] + tail;
    assert scan + ([token] + tail) == scan + [token] + tail;
  }

  /** The loop of `split_CSV_line`: the pieces that end at a delimiter, and where the last one begins. */
  method ScanDelimiters(line: Bytes, d: Byte) returns (scan: seq<Bytes>, last: int)
    ensures -1 <= last < |line|
    ensures last == -1 <==> scan == []
    ensures Pieces(line, d) == scan + [line[last + 1..]]
  {
    last := -1;
    scan := [];
    assert line[0..] == line;
    assert [] + Pieces(line, d) == Pieces(line, d);
    var curr := FirstOf(line, d);
    while curr < |line|
      invariant -1 <= last < curr <= |line|
      invariant curr == last + 1 + FirstOf(line[last + 1..], d)
      invariant Scanned(line, d, scan, last + 1)
      invariant last == -1 <==> scan == []
      decreases |line| - last
    {
      NextPiece(line, d, scan, last + 1, curr);
      scan := scan + [line[last + 1..curr]];
      last := curr;
      curr := last + 1 + FirstOf(line[last + 1..], d);
    }
  }

  /** Step 1 of `split_CSV_line`: cut the line into chunks. */
  method ScanLine(line: Bytes, d: Byte) returns (scan: seq<Bytes>)
    ensures var pieces := Pieces(line, d); scan == pieces[..|pieces| - 1] + LastPiece(pieces)
  {
    var last: int;
    scan, last := ScanDelimiters(line, d);
    var len := |line|;
    ghost var rest := line[last + 1..];
    SplitLast(Pieces(line, d), scan, rest);
    if last + 1 < len - 1 {
      // substr(last + 1, len - 1): at most len - 1 bytes
      var count := if len - 1 <= len - (last + 1) then len - 1 else len - (last + 1);
      var token := line[last + 1..last + 1 + count];
      assert token == if scan == [] then rest[..|rest| - 1] else rest;
      scan := scan + [token];
    } else {
      assert scan + [] == scan;
    }
  }

  /** Step 2: strip whitespace and keep what is left. */
  method StripTokens(scan: seq<Bytes>) returns (fields: seq<Bytes>)
    ensures fields == Clean(scan)
  {
    fields := [];
    var i := 0;
    while i < |scan|
      invariant 0 <= i <= |scan|
      invariant fields == Clean(scan[..i])
    {
      assert scan[..i + 1][..i] == scan[..i];
      var token := Trim(scan[i]);
      if |token| > 0 {
        fields := fields + [token];
      }
      i := i + 1;
    }
    assert scan[..i] == scan;
  }

  /** `split_CSV_line` with a one-character delimiter. */
  method SplitCsvLine(line: Bytes, d: Byte) returns (fields: seq<Bytes>)
    ensures fields == Split(line, d)
  {
    var scan := ScanLine(line, d);
    fields := StripTokens(scan);
  }

  /** The guard of the branch that goes wrong: the last piece is cut or dropped although it is not blank. */
  predicate LastPieceKept(line: Bytes, d: Byte) {
    var pieces := Pieces(line, d);
    var last := pieces[|pieces| - 1];
    AllWhitespace(last) || (if |pieces| == 1 then IsWhitespace(last[|last| - 1]) else |last| >= 2)
  }

  lemma {:induction false} TrimBlank(s: Bytes)
    ensures Trim(s) == [] <==> AllWhitespace(s)
  {
    var left, right := TrimShape(s);
    if AllWhitespace(s) {
      TrimPadded(s, [], []);
      assert s + [] + [] == s;
    }
  }

  lemma DroppedByteMatters(s: Bytes)
    requires s != [] && !IsWhitespace(s[|s| - 1])
    ensures Trim(s[..|s| - 1]) != Trim(s)
  {
    var t := s[..|s| - 1];
    var left, right := TrimShape(s);
    var left', right' := TrimShape(t);
    TrimBlank(s);
    TrimBlank(t);
    assert s[|left|] == Trim(s)[0];
    if Trim(t) != [] {
      assert s[|left'|] == t[|left'|] == Trim(t)[0];
      assert forall k | 0 <= k < |left| :: s[k] == left[k];
      assert forall k | 0 <= k < |left'| :: s[k] == left'[k];
      assert |left| == |left'|;
    }
  }

  /** Cutting the last byte off a piece does no harm exactly if it is whitespace. */
  lemma CutLastByte(piece: Bytes)
    requires |piece| > 1
    ensures Clean([piece[..|piece| - 1]]) == Clean([piece]) <==> IsWhitespace(piece[|piece| - 1])
  {
    var cut, c := piece[..|piece| - 1], piece[|piece| - 1];
    CleanOne(piece);
    CleanOne(cut);
    assert piece == cut + [c];
    if IsWhitespace(c) {
      TrimLastBlank(cut, c);
    } else {
      DroppedByteMatters(piece);
      TrimBlank(piece);
    }
  }

  /** Splitting a line gives the trimmed non-blank pieces exactly when the last piece is not mistreated. */
  lemma SplitIsCleanPieces(line: Bytes, d: Byte)
    ensures Split(line, d) == Clean(Pieces(line, d)) <==> LastPieceKept(line, d)
  {
    var pieces := Pieces(line, d);
    var init, last := pieces[..|pieces| - 1], pieces[|pieces| - 1];
    assert pieces == init + [last];
    CleanAppend(init, LastPiece(pieces));
    CleanAppend(init, [last]);
    CleanOne(last);
    TrimBlank(last);
    if |last| > 1 && |pieces| == 1 {
      CutLastByte(last);
    }
  }

  lemma CleanOne(piece: Bytes)
    ensures Clean([piece]) == if Trim(piece) == [] then [] else [Trim(piece)]
  {
    assert [piece][..0] == [];
  }

  lemma TrimLastBlank(s: Bytes, c: Byte)
    requires IsWhitespace(c)
    ensures Trim(s + [c]) == Trim(s)
  {
    var left, right := TrimShape(s);
    TrimPadded(left, Trim(s), right + [c]);
    assert left + Trim(s) + (right + [c]) == s + [c];
  }

  function Join(parts: seq<Bytes>, d: Byte): Bytes
    requires parts != []
  {
    if |parts| == 1 then parts[0] else parts[0] + [d] + Join(parts[1..], d)
  }

  lemma FirstPiece(first: Bytes, rest: Bytes, d: Byte)
    requires d !in first
    ensures Pieces(first, d) == [first]
    ensures Pieces(first + [d] + rest, d) == [first] + Pieces(rest, d)
  {
    var line := first + [d] + rest;
    assert forall k | 0 <= k < |first| :: first[k] in first;
    assert FirstOf(first, d) == |first|;
    FirstIs(line, d, |first|);
    assert line[..|first|] == first && line[|first| + 1..] == rest;
  }

  lemma {:induction false} PiecesOfJoin(parts: seq<Bytes>, d: Byte)
    requires parts != [] && forall i | 0 <= i < |parts| :: d !in parts[i]
    ensures Pieces(Join(parts, d), d) == parts
    decreases |parts|
  {
    if |parts| == 1 {
      FirstPiece(parts[0], [], d);
      assert parts == [parts[0]];
    } else {
      PiecesOfJoin(parts[1..], d);
      FirstPiece(parts[0], Join(parts[1..], d), d);
      assert parts == [parts[0]] + parts[1..];
    }
  }

  /** A field with whitespace around it. */
  datatype Padded = Padded(left: Bytes, field: Bytes, right: Bytes)

  function PrintPadded(p: Padded): Bytes {
    p.left + p.field + p.right
  }

  function PrintAll(ps: seq<Padded>): (r: seq<Bytes>)
    ensures |r| == |ps|
  {
    seq(|ps|, i requires 0 <= i < |ps| => PrintPadded(ps[i]))
  }

  function FieldsOf(ps: seq<Padded>): (r: seq<Bytes>)
    ensures |r| == |ps|
  {
    seq(|ps|, i requires 0 <= i < |ps| => ps[i].field)
  }

  predicate ValidPadded(p: Padded, d: Byte) {
    && p.field != [] && Trimmed(p.field) && d !in p.field
    && AllWhitespace(p.left) && AllWhitespace(p.right)
  }

  lemma {:induction false} CleanPadded(ps: seq<Padded>, d: Byte)
    requires forall i | 0 <= i < |ps| :: ValidPadded(ps[i], d)
    ensures Clean(PrintAll(ps)) == FieldsOf(ps)
  {
    if ps != [] {
      var init, p := ps[..|ps| - 1], ps[|ps| - 1];
      CleanPadded(init, d);
      assert PrintAll(ps)[..|ps| - 1] == PrintAll(init);
      TrimPadded(p.left, p.field, p.right);
      assert FieldsOf(ps) == FieldsOf(init) + [p.field];
    }
  }

  lemma PaddedHasNoDelimiter(p: Padded, d: Byte)
    requires !IsWhitespace(d) && ValidPadded(p, d)
    ensures d !in PrintPadded(p)
  {
  }

  /** The last of the joined pieces is long enough for the code; a field that is alone needs whitespace after it. */
  predicate LastIsKept(ps: seq<Padded>)
    requires ps != []
  {
    var last := ps[|ps| - 1];
    if |ps| == 1 then last.right != [] else |PrintPadded(last)| >= 2
  }

  lemma PiecesOfPadded(ps: seq<Padded>, d: Byte)
    requires !IsWhitespace(d) && ps != []
    requires forall i | 0 <= i < |ps| :: ValidPadded(ps[i], d)
    ensures Pieces(Join(PrintAll(ps), d), d) == PrintAll(ps)
  {
    var parts := PrintAll(ps);
    forall i | 0 <= i < |parts| ensures d !in parts[i] {
      PaddedHasNoDelimiter(ps[i], d);
    }
    PiecesOfJoin(parts, d);
  }

  lemma LastPadded(p: Padded, d: Byte)
    requires ValidPadded(p, d)
    ensures !AllWhitespace(PrintPadded(p))
    ensures IsWhitespace(PrintPadded(p)[|PrintPadded(p)| - 1]) <==> p.right != []
  {
    TrimPadded(p.left, p.field, p.right);
    TrimBlank(PrintPadded(p));
  }

  /** Splitting undoes joining for trimmed fields, whatever whitespace surrounds them, iff the last piece is kept. */
  lemma {:induction false} SplitJoined(ps: seq<Padded>, d: Byte)
    requires !IsWhitespace(d) && ps != []
    requires forall i | 0 <= i < |ps| :: ValidPadded(ps[i], d)
    ensures Split(Join(PrintAll(ps), d), d) == FieldsOf(ps) <==> LastIsKept(ps)
  {
    PiecesOfPadded(ps, d);
    CleanPadded(ps, d);
    LastPadded(ps[|ps| - 1], d);
    SplitIsCleanPieces(Join(PrintAll(ps), d), d);
  }

  lemma {:induction false} CleanIsNotLonger(pieces: seq<Bytes>)
    ensures |Clean(pieces)| <= |pieces|
  {
    if pieces != [] {
      CleanIsNotLonger(pieces[..|pieces| - 1]);
    }
  }

  lemma SplitIsNotLonger(line: Bytes, d: Byte)
    ensures |Split(line, d)| <= |Pieces(line, d)|
  {
    var pieces := Pieces(line, d);
    CleanIsNotLonger(pieces[..|pieces| - 1] + LastPiece(pieces));
  }

  /** A last piece of one byte never becomes a field. */
  lemma {:induction false} ShortLastIsNoField(line: Bytes, d: Byte)
    requires var pieces := Pieces(line, d); |pieces[|pieces| - 1]| <= 1
    ensures |Split(line, d)| < |Pieces(line, d)|
  {
    var pieces := Pieces(line, d);
    assert pieces[..|pieces| - 1] + [] == pieces[..|pieces| - 1];
    CleanIsNotLonger(pieces[..|pieces| - 1]);
  }

  /** A last field of a single byte gets lost. */
  lemma {:induction false} LastByteIsLost(ps: seq<Padded>, d: Byte)
    requires !IsWhitespace(d) && |ps| >= 2
    requires forall i | 0 <= i < |ps| :: ValidPadded(ps[i], d)
    requires |PrintPadded(ps[|ps| - 1])| == 1
    ensures Split(Join(PrintAll(ps), d), d) == FieldsOf(ps[..|ps| - 1])
  {
    PiecesOfPadded(ps, d);
    var init := ps[..|ps| - 1];
    assert PrintAll(ps)[..|ps| - 1] == PrintAll(init);
    assert PrintAll(init) + [] == PrintAll(init);
    CleanPadded(init, d);
  }
}
