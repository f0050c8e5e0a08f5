/**
 The string functions the narinfo code rests on: scanning lines, splitting and
 joining, trimming, and 64-bit decimal numbers. White space is that of ASCII.
 Scanners are written by what they have found after each prefix of the text.
 */
module Text {

  predicate IsSpace(c: char)
  {
    c in {' ', '\t', '\n', '\r', 11 as char, 12 as char}
  }

  lemma IsSpaceIff(c: char)
    ensures IsSpace(c) <==> c as int == 32 || 9 <= c as int <= 13
  {
  }

  predicate NoSpace(s: string)
  {
    forall c :: c in s ==> !IsSpace(c)
  }

  // ---- splitting and joining ---------------------------------------------------

  /** The finished pieces and the piece being read. */
  datatype Scan = Scan(done: seq<string>, piece: string)

  function Join(pieces: seq<string>, sep: string): string
  {
    if pieces == [] then ""
    else if |pieces| == 1 then pieces[0]
    else Join(pieces[..|pieces| - 1], sep) + sep + pieces[|pieces| - 1]
  }

  function SplitScan(s: string, sep: char): Scan
  {
    if s == "" then Scan([], "")
    else
      var before := SplitScan(s[..|s| - 1], sep);
      var c := s[|s| - 1];
      if c == sep then Scan(before.done + [before.piece], "") else Scan(before.done, before.piece + [c])
  }

  /** Appending all but the last character, then the last one. */
  lemma AppendLast(p: string, w: string)
    requires w != ""
    ensures p + w[..|w| - 1] + [w[|w| - 1]] == p + w
  {
    assert w == w[..|w| - 1] + [w[|w| - 1]];
  }

  /** strings.Split on a one-character separator. */
  function Split(s: string, sep: char): (r: seq<string>)
    ensures r != []
  {
    var end := SplitScan(s, sep);
    end.done + [end.piece]
  }

  lemma {:induction false} SplitScanPiece(s: string, w: string, sep: char)
    requires sep !in w
    ensures SplitScan(s + w, sep) == Scan(SplitScan(s, sep).done, SplitScan(s, sep).piece + w)
  {
    hide *;
    if w == "" {
      assert s + w == s;
      assert SplitScan(s, sep).piece + w == SplitScan(s, sep).piece;
    } else {
      var n := |w| - 1;
      SplitScanPiece(s, w[..n], sep);
      SplitScanNext(s + w[..n], w[n], sep);
      AppendLast(s, w);
      AppendLast(SplitScan(s, sep).piece, w);
    }
  }

  lemma SplitScanNext(s: string, c: char, sep: char)
    requires c != sep
    ensures SplitScan(s + [c], sep) == Scan(SplitScan(s, sep).done, SplitScan(s, sep).piece + [c])
  {
    assert (s + [c])[..|s|] == s;
  }

  lemma SplitScanSeparator(s: string, sep: char)
    ensures SplitScan(s + [sep], sep) == Scan(SplitScan(s, sep).done + [SplitScan(s, sep).piece], "")
  {
    assert (s + [sep])[..|s|] == s;
  }

  /** One more piece after pieces that were split as they should. */
  lemma SplitScanOneMore(s: string, done: seq<string>, piece: string, last: string, sep: char)
    requires SplitScan(s, sep) == Scan(done, piece) && sep !in last
    ensures SplitScan(s + [sep] + last, sep) == Scan(done + [piece], last)
  {
    hide SplitScan;
    SplitScanSeparator(s, sep);
    SplitScanPiece(s + [sep], last, sep);
    assert "" + last == last;
  }

  lemma JoinLast(pieces: seq<string>, sep: string)
    requires |pieces| > 1
    ensures Join(pieces, sep) == Join(pieces[..|pieces| - 1], sep) + sep + pieces[|pieces| - 1]
  {
  }

  lemma LastTwo<T>(s: seq<T>)
    requires |s| > 1
    ensures s[..|s| - 1] == s[..|s| - 1][..|s| - 2] + [s[|s| - 2]]
    ensures s[..|s| - 1][|s| - 2] == s[|s| - 2]
  {
  }

  /** Joining pieces and splitting the result again. */
  lemma {:induction false} SplitScanJoin(pieces: seq<string>, sep: char)
    requires pieces != [] && forall p :: p in pieces ==> sep !in p
    ensures SplitScan(Join(pieces, [sep]), sep) == Scan(pieces[..|pieces| - 1], pieces[|pieces| - 1])
  {
    var n := |pieces| - 1;
    if n == 0 {
      SplitScanPiece("", pieces[0], sep);
      assert "" + pieces[0] == pieces[0];
    } else {
      hide SplitScan, Join;
      var front := pieces[..n];
      SplitScanJoin(front, sep);
      JoinLast(pieces, [sep]);
      LastTwo(pieces);
      SplitScanOneMore(Join(front, [sep]), front[..n - 1], front[n - 1], pieces[n], sep);
    }
  }

  lemma SplitJoin(pieces: seq<string>, sep: char)
    requires pieces != [] && forall p :: p in pieces ==> sep !in p
    ensures Split(Join(pieces, [sep]), sep) == pieces
  {
    hide SplitScan, Join;
    SplitScanJoin(pieces, sep);
    assert pieces == pieces[..|pieces| - 1] + [pieces[|pieces| - 1]];
  }

  lemma {:induction false} SplitScanPieces(s: string, sep: char)
    ensures sep !in SplitScan(s, sep).piece && forall p :: p in SplitScan(s, sep).done ==> sep !in p
  {
    if s != "" {
      SplitScanPieces(s[..|s| - 1], sep);
    }
  }

  lemma SplitPieces(s: string, sep: char)
    ensures forall p :: p in Split(s, sep) ==> sep !in p
  {
    SplitScanPieces(s, sep);
  }

  lemma JoinAppend(pieces: seq<string>, p: string, sep: string)
    ensures Join(pieces + [p], sep) == if pieces == [] then p else Join(pieces, sep) + sep + p
  {
    assert (pieces + [p])[..|pieces|] == pieces;
  }

  lemma {:induction false} SplitScanAfter(a: string, b: string, sep: char)
    ensures SplitScan(a + [sep] + b, sep) ==
            Scan(SplitScan(a, sep).done + [SplitScan(a, sep).piece] + SplitScan(b, sep).done, SplitScan(b, sep).piece)
  {
    if b == "" {
      assert a + [sep] + b == a + [sep];
      SplitScanSeparator(a, sep);
    } else {
      var n := |b| - 1;
      var s := a + [sep] + b;
      SplitScanAfter(a, b[..n], sep);
      assert s[..|s| - 1] == a + [sep] + b[..n] && s[|s| - 1] == b[n];
    }
  }

  /** A separator parts what stands before it from what stands after it. */
  lemma SplitAppend(a: string, b: string, sep: char)
    ensures Split(a + [sep] + b, sep) == Split(a, sep) + Split(b, sep)
  {
    SplitScanAfter(a, b, sep);
  }

  /** Splitting loses nothing. */
  lemma {:induction false} JoinSplit(s: string, sep: char)
    ensures Join(Split(s, sep), [sep]) == s
  {
    if s != "" {
      var front, c := s[..|s| - 1], s[|s| - 1];
      JoinSplit(front, sep);
      var scan := SplitScan(front, sep);
      assert Split(s, sep) ==
        if c == sep then scan.done + [scan.piece] + [""] else scan.done + [scan.piece + [c]];
      assert s == front + [c];
      hide *;
      JoinOneMore(scan.done, scan.piece, c, [sep]);
      JoinAppend(scan.done + [scan.piece], "", [sep]);
    }
  }

  /** A character added to the last piece is added to the text. */
  lemma JoinOneMore(done: seq<string>, piece: string, c: char, sep: string)
    ensures Join(done + [piece + [c]], sep) == Join(done + [piece], sep) + [c]
  {
    JoinAppend(done, piece, sep);
    JoinAppend(done, piece + [c], sep);
    hide Join;
    var joined := Join(done, sep);
    assert joined + sep + (piece + [c]) == joined + sep + piece + [c];
  }

  lemma {:induction false} JoinWithout(pieces: seq<string>, sep: string, c: char)
    requires c !in sep && forall p :: p in pieces ==> c !in p
    ensures c !in Join(pieces, sep)
  {
    if |pieces| > 1 {
      JoinWithout(pieces[..|pieces| - 1], sep, c);
    }
  }

  // ---- fields ----------------------------------------------------------------------

  function FieldScan(s: string): Scan
  {
    if s == "" then Scan([], "")
    else
      var before := FieldScan(s[..|s| - 1]);
      var c := s[|s| - 1];
      if !IsSpace(c) then Scan(before.done, before.piece + [c])
      else Scan(if before.piece == "" then before.done else before.done + [before.piece], "")
  }

  /** strings.Fields: the pieces between runs of white space. */
  function Fields(s: string): seq<string>
  {
    var end := FieldScan(s);
    if end.piece == "" then end.done else end.done + [end.piece]
  }

  predicate IsField(p: string)
  {
    p != "" && NoSpace(p)
  }

  lemma FieldScanNext(s: string, c: char)
    requires !IsSpace(c)
    ensures FieldScan(s + [c]) == Scan(FieldScan(s).done, FieldScan(s).piece + [c])
  {
    assert (s + [c])[..|s|] == s;
  }

  lemma NoSpaceNext(w: string)
    requires NoSpace(w) && w != ""
    ensures NoSpace(w[..|w| - 1]) && !IsSpace(w[|w| - 1])
  {
    hide IsSpace;
    assert w[|w| - 1] in w;
  }

  lemma {:induction false} FieldScanPiece(s: string, w: string)
    requires NoSpace(w)
    ensures FieldScan(s + w) == Scan(FieldScan(s).done, FieldScan(s).piece + w)
  {
    hide *;
    if w == "" {
      assert s + w == s;
      assert FieldScan(s).piece + w == FieldScan(s).piece;
    } else {
      var n := |w| - 1;
      NoSpaceNext(w);
      FieldScanPiece(s, w[..n]);
      FieldScanNext(s + w[..n], w[n]);
      AppendLast(s, w);
      AppendLast(FieldScan(s).piece, w);
    }
  }

  lemma FieldScanSpace(s: string)
    requires FieldScan(s).piece != ""
    ensures FieldScan(s + " ") == Scan(FieldScan(s).done + [FieldScan(s).piece], "")
  {
    assert (s + " ")[..|s|] == s;
  }

  lemma {:induction false} FieldScanJoin(pieces: seq<string>)
    requires pieces != [] && forall p :: p in pieces ==> IsField(p)
    ensures FieldScan(Join(pieces, " ")) == Scan(pieces[..|pieces| - 1], pieces[|pieces| - 1])
  {
    var n := |pieces| - 1;
    assert IsField(pieces[n]);
    if n == 0 {
      FieldScanPiece("", pieces[0]);
      assert "" + pieces[0] == pieces[0];
    } else {
      assert IsField(pieces[n - 1]);
      hide FieldScan, Join, NoSpace;
      var front := pieces[..n];
      FieldScanJoin(front);
      JoinLast(pieces, " ");
      LastTwo(pieces);
      FieldScanSpace(Join(front, " "));
      FieldScanPiece(Join(front, " ") + " ", pieces[n]);
      assert "" + pieces[n] == pieces[n];
    }
  }

  lemma FieldsJoin(pieces: seq<string>)
    requires forall p :: p in pieces ==> IsField(p)
    ensures Fields(Join(pieces, " ")) == pieces
  {
    if pieces != [] {
      var n := |pieces| - 1;
      assert IsField(pieces[n]) && pieces[n] != "";
      hide *;
      FieldScanJoin(pieces);
      FieldsEndIn(Join(pieces, " "), pieces[..n], pieces[n]);
      assert pieces == pieces[..n] + [pieces[n]];
    }
  }

  lemma FieldsEndIn(s: string, done: seq<string>, piece: string)
    requires FieldScan(s) == Scan(done, piece) && piece != ""
    ensures Fields(s) == done + [piece]
  {
    hide FieldScan;
  }

  lemma {:induction false} FieldScanFields(s: string)
    ensures forall p :: p in FieldScan(s).done ==> IsField(p)
    ensures NoSpace(FieldScan(s).piece)
  {
    if s != "" {
      FieldScanFields(s[..|s| - 1]);
    }
  }

  lemma {:induction false} FieldScanAfter(a: string, c: char, b: string)
    requires IsSpace(c)
    ensures FieldScan(a + [c] + b) == Scan(Fields(a) + FieldScan(b).done, FieldScan(b).piece)
  {
    if b == "" {
      assert a + [c] + b == a + [c] && (a + [c])[..|a|] == a;
    } else {
      var n := |b| - 1;
      FieldScanAfter(a, c, b[..n]);
      assert (a + [c] + b)[..|a + [c] + b| - 1] == a + [c] + b[..n];
      hide Fields, IsSpace;
    }
  }

  /** White space parts the fields before it from those after it. */
  lemma FieldsParted(a: string, c: char, b: string)
    requires IsSpace(c)
    ensures Fields(a + [c] + b) == Fields(a) + Fields(b)
  {
    FieldScanAfter(a, c, b);
    hide FieldScan, IsSpace;
    FieldsEnd(Fields(a), FieldScan(b).done, FieldScan(b).piece);
  }

  lemma FieldsEnd(front: seq<string>, done: seq<string>, piece: string)
    ensures (front + done) + [piece] == front + (done + [piece])
  {
  }

  /** A text without white space is one field, or none if it is empty. */
  lemma FieldsOfOne(w: string)
    requires NoSpace(w)
    ensures Fields(w) == if w == "" then [] else [w]
  {
    if w != "" {
      FieldsJoin([w]);
    }
  }

  lemma FieldsAreFields(s: string)
    ensures forall p :: p in Fields(s) ==> IsField(p)
  {
    FieldScanFields(s);
  }

  // ---- lines -----------------------------------------------------------------------

  function DropCR(s: string): string
  {
    if s != "" && s[|s| - 1] == '\r' then s[..|s| - 1] else s
  }

  function LineScan(s: string): Scan
  {
    if s == "" then Scan([], "")
    else
      var before := LineScan(s[..|s| - 1]);
      var c := s[|s| - 1];
      if c == '\n' then Scan(before.done + [DropCR(before.piece)], "") else Scan(before.done, before.piece + [c])
  }

  /** The lines bufio.Scanner delivers: a carriage return before the end is dropped, an empty rest is no line. */
  function Lines(s: string): seq<string>
  {
    var end := LineScan(s);
    if end.piece == "" then end.done else end.done + [DropCR(end.piece)]
  }

  lemma {:induction false} LineScanPiece(s: string, w: string)
    requires '\n' !in w
    ensures LineScan(s + w) == Scan(LineScan(s).done, LineScan(s).piece + w)
  {
    hide *;
    if w == "" {
      assert s + w == s;
      assert LineScan(s).piece + w == LineScan(s).piece;
    } else {
      var n := |w| - 1;
      LineScanPiece(s, w[..n]);
      LineScanNext(s + w[..n], w[n]);
      AppendLast(s, w);
      AppendLast(LineScan(s).piece, w);
    }
  }

  lemma LineScanNext(s: string, c: char)
    requires c != '\n'
    ensures LineScan(s + [c]) == Scan(LineScan(s).done, LineScan(s).piece + [c])
  {
    assert (s + [c])[..|s|] == s;
  }

  /** One more line at the end of a text whose lines are all ended. */
  lemma LineScanLine(s: string, w: string)
    requires '\n' !in w && LineScan(s).piece == ""
    ensures LineScan(s + w + "\n") == Scan(LineScan(s).done + [DropCR(w)], "")
  {
    LineScanPiece(s, w);
    assert "" + w == w;
    assert (s + w + "\n")[..|s + w|] == s + w;
  }

  lemma {:induction false} LineScanClean(s: string)
    ensures forall l :: l in LineScan(s).done ==> '\n' !in l
    ensures '\n' !in LineScan(s).piece
  {
    if s != "" {
      LineScanClean(s[..|s| - 1]);
    }
  }

  lemma {:induction false} LineScanAfter(a: string, b: string)
    ensures LineScan(a + "\n" + b) ==
            Scan(LineScan(a).done + [DropCR(LineScan(a).piece)] + LineScan(b).done, LineScan(b).piece)
  {
    hide DropCR;
    if b == "" {
      assert a + "\n" + b == a + "\n" && (a + "\n")[..|a|] == a;
    } else {
      var n := |b| - 1;
      LineScanAfter(a, b[..n]);
      assert (a + "\n" + b)[..|a + "\n" + b| - 1] == a + "\n" + b[..n];
    }
  }

  /**
   The first newline ends the first line, a carriage return before it or at the end of
   the text left out; a text without newlines is one line, or none if it is empty.
   */
  lemma LinesParted(w: string, b: string)
    requires '\n' !in w && (w == "" || w[|w| - 1] != '\r')
    ensures Lines(w + "\n" + b) == [w] + Lines(b)
    ensures Lines(w + "\r\n" + b) == [w] + Lines(b)
    ensures Lines(w) == if w == "" then [] else [w]
    ensures Lines(w + "\r") == [w]
  {
    hide *;
    var v := w + "\r";
    NoCR(w);
    LinesNext(w, b);
    LinesNext(v, b);
    LastLine(w);
    LastLine(v);
    assert v + "\n" + b == w + "\r\n" + b;
  }

  lemma NoCR(w: string)
    ensures DropCR(w + "\r") == w
    ensures w == "" || w[|w| - 1] != '\r' ==> DropCR(w) == w
  {
    var v := w + "\r";
    assert v[..|v| - 1] == w;
  }

  lemma LinesNext(w: string, b: string)
    requires '\n' !in w
    ensures Lines(w + "\n" + b) == [DropCR(w)] + Lines(b)
  {
    LineScanAfter(w, b);
    LastLine(w);
    LineScanPiece("", w);
    NothingScanned(w);
    hide DropCR, LineScan;
    OneLineMore(DropCR(w), LineScan(b).done, DropCR(LineScan(b).piece));
  }

  lemma NothingScanned(w: string)
    ensures LineScan("") == Scan([], "") && "" + w == w
  {
  }

  lemma OneLineMore(line: string, done: seq<string>, last: string)
    ensures [] + [line] + done == [line] + done
    ensures ([line] + done) + [last] == [line] + (done + [last])
  {
  }

  lemma LastLine(w: string)
    requires '\n' !in w
    ensures Lines(w) == if w == "" then [] else [DropCR(w)]
  {
    LineScanPiece("", w);
    NothingScanned(w);
    hide DropCR, LineScan;
  }

  lemma LinesClean(s: string)
    ensures forall l :: l in Lines(s) ==> '\n' !in l
  {
    LineScanClean(s);
  }

  // ---- searching --------------------------------------------------------------------

  /** The first position of c, or the length. */
  function IndexOf(s: string, c: char): (i: nat)
    ensures i <= |s| && c !in s[..i]
    ensures i < |s| ==> s[i] == c
  {
    if s == "" || s[0] == c then 0
    else
      var i := 1 + IndexOf(s[1..], c);
      assert s[..i] == [s[0]] + s[1..][..i - 1];
      i
  }

  lemma {:induction false} IndexAfter(k: string, c: char, rest: string)
    requires c !in k
    ensures IndexOf(k + [c] + rest, c) == |k|
  {
    if k != "" {
      IndexAfter(k[1..], c, rest);
      assert (k + [c] + rest)[1..] == k[1..] + [c] + rest;
    }
  }

  /** The first position of ": ", or -1. */
  function IndexOfColonSpace(s: string): (i: int)
    ensures -1 <= i < |s|
    ensures i >= 0 ==> i + 2 <= |s| && s[i] == ':' && s[i + 1] == ' '
  {
    if |s| < 2 then -1
    else if s[0] == ':' && s[1] == ' ' then 0
    else
      var i := IndexOfColonSpace(s[1..]);
      if i < 0 then -1 else i + 1
  }

  /** No colon and space stand further to the left, and none at all if there is no position. */
  lemma {:induction false} ColonSpaceIsFirst(s: string, j: nat)
    requires j + 1 < |s| && s[j] == ':' && s[j + 1] == ' '
    ensures 0 <= IndexOfColonSpace(s) <= j
  {
    if j > 0 {
      ColonSpaceIsFirst(s[1..], j - 1);
    }
  }

  lemma {:induction false} KeyEndsAtColon(k: string, v: string)
    requires ':' !in k
    ensures IndexOfColonSpace(k + ": " + v) == |k|
  {
    var s := k + ": " + v;
    if k != "" {
      KeyEndsAtColon(k[1..], v);
      assert s[1..] == k[1..] + ": " + v;
    }
  }

  // ---- trimming ----------------------------------------------------------------------

  function TrimLeft(s: string): (r: string)
  {
    if s != "" && IsSpace(s[0]) then TrimLeft(s[1..]) else s
  }

  function TrimRight(s: string): (r: string)
  {
    if s != "" && IsSpace(s[|s| - 1]) then TrimRight(s[..|s| - 1]) else s
  }

  function TrimSpace(s: string): string
  {
    TrimRight(TrimLeft(s))
  }

  predicate IsTrimmed(s: string)
  {
    s == "" || (!IsSpace(s[0]) && !IsSpace(s[|s| - 1]))
  }

  predicate AllSpace(s: string)
  {
    forall c :: c in s ==> IsSpace(c)
  }

  lemma {:induction false} TrimLeftSkips(l: string, s: string)
    requires AllSpace(l)
    ensures TrimLeft(l + s) == TrimLeft(s)
  {
    if l == "" {
      assert l + s == s;
    } else {
      assert (l + s)[1..] == l[1..] + s;
      assert (l + s)[0] == l[0] && l[0] in l;
      TrimLeftSkips(l[1..], s);
    }
  }

  lemma {:induction false} TrimRightSkips(s: string, r: string)
    requires AllSpace(r)
    ensures TrimRight(s + r) == TrimRight(s)
  {
    if r == "" {
      assert s + r == s;
    } else {
      var n := |r| - 1;
      assert (s + r)[..|s + r| - 1] == s + r[..n];
      assert (s + r)[|s + r| - 1] == r[n] && r[n] in r;
      TrimRightSkips(s, r[..n]);
    }
  }

  /** What TrimSpace finds: the middle between two stretches of white space. */
  lemma TrimSpaceIs(l: string, t: string, r: string)
    requires AllSpace(l) && AllSpace(r) && IsTrimmed(t)
    ensures TrimSpace(l + t + r) == t
  {
    assert l + t + r == l + (t + r);
    TrimLeftSkips(l, t + r);
    if t == "" {
      assert t + r == r + "";
      TrimLeftSkips(r, "");
    } else {
      assert (t + r)[0] == t[0];
      TrimRightSkips(t, r);
    }
  }

  lemma {:induction false} TrimLeftPart(s: string) returns (l: string)
    ensures AllSpace(l) && s == l + TrimLeft(s)
    ensures TrimLeft(s) != "" ==> !IsSpace(TrimLeft(s)[0])
  {
    TrimLeftStep(s);
    hide *;
    if s != "" && IsSpace(s[0]) {
      var l0 := TrimLeftPart(s[1..]);
      l := [s[0]] + l0;
      AllSpaceMore(l0, s[0]);
      assert s == [s[0]] + s[1..];
    } else {
      l := "";
      assert s == l + s;
    }
  }

  lemma TrimLeftStep(s: string)
    ensures s != "" && IsSpace(s[0]) ==> TrimLeft(s) == TrimLeft(s[1..])
    ensures s == "" || !IsSpace(s[0]) ==> TrimLeft(s) == s
    ensures AllSpace("")
  {
  }

  lemma TrimRightStep(s: string)
    ensures s != "" && IsSpace(s[|s| - 1]) ==> TrimRight(s) == TrimRight(s[..|s| - 1])
    ensures s == "" || !IsSpace(s[|s| - 1]) ==> TrimRight(s) == s
    ensures AllSpace("")
  {
  }

  lemma AllSpaceMore(l: string, c: char)
    requires AllSpace(l) && IsSpace(c)
    ensures AllSpace([c] + l) && AllSpace(l + [c])
  {
  }

  lemma {:induction false} TrimRightPart(s: string) returns (r: string)
    ensures AllSpace(r) && s == TrimRight(s) + r
    ensures TrimRight(s) != "" ==> !IsSpace(TrimRight(s)[|TrimRight(s)| - 1])
  {
    TrimRightStep(s);
    hide *;
    if s != "" && IsSpace(s[|s| - 1]) {
      var n := |s| - 1;
      var r0 := TrimRightPart(s[..n]);
      r := r0 + [s[n]];
      AllSpaceMore(r0, s[n]);
      assert s == s[..n] + [s[n]];
    } else {
      r := "";
      assert s == s + r;
    }
  }

  lemma TrimParts(s: string) returns (l: string, r: string)
    ensures AllSpace(l) && AllSpace(r) && IsTrimmed(TrimSpace(s)) && s == l + TrimSpace(s) + r
  {
    l := TrimLeftPart(s);
    r := TrimRightPart(TrimLeft(s));
    var t := TrimSpace(s);
    assert TrimLeft(s) == t + r;
    assert l + (t + r) == l + t + r;
    if t != "" {
      assert TrimLeft(s)[0] == t[0];
    }
  }

  /** Trimming only shortens, and keeps exactly the text that has no white space at its ends. */
  lemma TrimSpaceShortens(s: string)
    ensures |TrimSpace(s)| <= |s| && IsTrimmed(TrimSpace(s))
    ensures |TrimSpace(s)| == |s| <==> IsTrimmed(s)
    ensures TrimSpace(s) == s <==> IsTrimmed(s)
    ensures forall c :: c in TrimSpace(s) ==> c in s
  {
    var l, r := TrimParts(s);
    if IsTrimmed(s) {
      assert "" + s + "" == s;
      TrimSpaceIs("", s, "");
    }
    if |TrimSpace(s)| == |s| {
      assert l == "" && r == "";
      assert s == TrimSpace(s);
    }
  }

  // ---- numbers -------------------------------------------------------------------------

  const MAX_UINT64: int := 0xFFFF_FFFF_FFFF_FFFF
  const MIN_INT64: int := -0x8000_0000_0000_0000
  const MAX_INT64: int := 0x7FFF_FFFF_FFFF_FFFF

  type Int64 = x: int | -0x8000_0000_0000_0000 <= x <= 0x7FFF_FFFF_FFFF_FFFF

  function Digit(d: nat): char
    requires d < 10
  {
    '0' + d as char
  }

  function Digits(n: nat): (s: string)
    ensures s != "" && forall c :: c in s ==> '0' <= c <= '9'
  {
    if n < 10 then [Digit(n)] else Digits(n / 10) + [Digit(n % 10)]
  }

  /** Decimal notation, as %d and strconv.FormatInt write it. */
  function FormatInt(x: int): string
  {
    if x < 0 then "-" + Digits(-x) else Digits(x)
  }

  predicate AllDigits(s: string)
  {
    forall c :: c in s ==> '0' <= c <= '9'
  }

  /** The characters as decimal digits of a number, each worth its distance from '0'. */
  function DecimalValue(s: string): int
  {
    if s == "" then 0 else 10 * DecimalValue(s[..|s| - 1]) + (s[|s| - 1] as int - '0' as int)
  }

  /** The decimal notation of n without leading zeros. */
  ghost predicate IsDecimal(s: string, n: nat)
  {
    s != "" && AllDigits(s) && DecimalValue(s) == n && (|s| > 1 ==> s[0] != '0')
  }

  lemma {:induction false} DigitsAreDecimal(n: nat)
    ensures IsDecimal(Digits(n), n)
    ensures n > 0 ==> Digits(n)[0] != '0'
  {
    var s := Digits(n);
    if n < 10 {
      assert s[..0] == "" && DecimalValue("") == 0;
    } else {
      DigitsAreDecimal(n / 10);
      assert s[..|s| - 1] == Digits(n / 10) && s[0] == Digits(n / 10)[0];
      assert 10 * (n / 10) + n % 10 == n;
    }
  }

  /** A minus sign for negative numbers, then the decimal notation. */
  lemma FormatIntIs(x: int)
    ensures x >= 0 ==> IsDecimal(FormatInt(x), x)
    ensures x < 0 ==> FormatInt(x)[0] == '-' && IsDecimal(FormatInt(x)[1..], -x)
  {
    DigitsAreDecimal(if x < 0 then -x else x);
    if x < 0 {
      assert FormatInt(x)[1..] == Digits(-x);
    }
  }

  datatype Number = Value(n: nat) | Syntax | Range

  /** The state of strconv.ParseUint after one more character; an error ends the scan. */
  function ParseStep(before: Number, c: char): Number
  {
    if !before.Value? then before
    else if !('0' <= c <= '9') then Syntax
    else
      var n := before.n * 10 + (c as int - '0' as int);
      if n > MAX_UINT64 then Range else Value(n)
  }

  function ParseScan(s: string): Number
  {
    if s == "" then Value(0) else ParseStep(ParseScan(s[..|s| - 1]), s[|s| - 1])
  }

  function ParseUint(s: string): Number
  {
    if s == "" then Syntax else ParseScan(s)
  }

  /** strconv.ParseInt with its error ignored: 0 for a syntax error, the nearest bound when out of range. */
  function ParseInt(s: string): (x: Int64)
  {
    var neg := s != "" && s[0] == '-';
    var u := ParseUint(if s != "" && (s[0] == '-' || s[0] == '+') then s[1..] else s);
    if u.Syntax? then 0
    else
      var n := if u.Range? then MAX_UINT64 else u.n;
      if !neg then (if n > MAX_INT64 then MAX_INT64 else n)
      else if -n < MIN_INT64 then MIN_INT64 else -n
  }

  /** The first k characters are digits of a number beyond 64 bits. */
  ghost predicate OverflowsAt(s: string, k: nat)
  {
    k <= |s| && AllDigits(s[..k]) && DecimalValue(s[..k]) > 0xFFFF_FFFF_FFFF_FFFF
  }

  lemma OverflowsEarlier(s: string, n: nat, k: nat)
    requires n == |s| - 1
    ensures k <= n ==> (OverflowsAt(s, k) <==> OverflowsAt(s[..n], k))
    ensures k == |s| ==> (OverflowsAt(s, k) <==> AllDigits(s) && DecimalValue(s) > 0xFFFF_FFFF_FFFF_FFFF)
    ensures k > |s| ==> !OverflowsAt(s, k)
  {
    assert k <= n ==> s[..n][..k] == s[..k];
    assert s[..|s|] == s;
  }

  lemma AllDigitsNext(s: string, n: nat)
    requires n == |s| - 1
    ensures AllDigits(s) <==> AllDigits(s[..n]) && '0' <= s[n] <= '9'
    ensures DecimalValue(s) == 10 * DecimalValue(s[..n]) + (s[n] as int - '0' as int)
  {
    assert s == s[..n] + [s[n]];
    assert s[n] in s && forall c :: c in s <==> c in s[..n] || c == s[n];
  }

  ghost predicate Overflows(s: string)
  {
    exists k: nat :: OverflowsAt(s, k)
  }

  lemma OverflowsNext(s: string, n: nat)
    requires n == |s| - 1
    ensures Overflows(s) <==> Overflows(s[..n]) || (AllDigits(s) && DecimalValue(s) > 0xFFFF_FFFF_FFFF_FFFF)
    ensures AllDigits(s[..n]) && DecimalValue(s[..n]) > 0xFFFF_FFFF_FFFF_FFFF ==> Overflows(s[..n])
  {
    hide OverflowsAt, AllDigits, DecimalValue;
    forall k: nat
      ensures OverflowsAt(s, k) <==>
        (k <= n && OverflowsAt(s[..n], k))
        || (k == |s| && AllDigits(s) && DecimalValue(s) > 0xFFFF_FFFF_FFFF_FFFF)
    {
      OverflowsEarlier(s, n, k);
    }
    forall k: nat
      ensures OverflowsAt(s[..n], k) ==> k <= n
    {
      OverflowsBound(s[..n], k);
    }
    if AllDigits(s) && DecimalValue(s) > 0xFFFF_FFFF_FFFF_FFFF {
      assert OverflowsAt(s, |s|);
    }
    if Overflows(s[..n]) {
      var k: nat :| OverflowsAt(s[..n], k);
      assert OverflowsAt(s, k);
    }
    OverflowsBound(s[..n], n);
  }

  lemma OverflowsBound(s: string, k: nat)
    ensures OverflowsAt(s, k) ==> k <= |s|
    ensures OverflowsAt(s, |s|) <==> AllDigits(s) && DecimalValue(s) > 0xFFFF_FFFF_FFFF_FFFF
  {
    assert s[..|s|] == s;
  }

  /** Scanning stops with an error at the first character that is no digit or makes the number too large. */
  lemma {:induction false} ScanIs(s: string)
    ensures ParseScan(s).Range? <==> Overflows(s)
    ensures ParseScan(s).Value? <==> AllDigits(s) && DecimalValue(s) <= 0xFFFF_FFFF_FFFF_FFFF
    ensures ParseScan(s).Value? ==> ParseScan(s).n == DecimalValue(s)
  {
    if s == "" {
      assert forall k: nat :: k <= |s| ==> s[..k] == "";
    } else {
      var n := |s| - 1;
      ScanIs(s[..n]);
      AllDigitsNext(s, n);
      OverflowsNext(s, n);
      hide Overflows, AllDigits, DecimalValue;
      assert ParseScan(s) == ParseStep(ParseScan(s[..n]), s[n]);
    }
  }

  /** The text after a sign. */
  function Unsigned(s: string): string
  {
    if "-" <= s || "+" <= s then s[1..] else s
  }

  function Clamp(x: int): int
  {
    if x > 9223372036854775807 then 9223372036854775807
    else if x < -9223372036854775808 then -9223372036854775808
    else x
  }

  /**
   What is read of any text: the number written, or the nearest 64-bit one; the bound
   already if the digits before some other character go beyond an unsigned 64-bit
   number; and otherwise 0.
   */
  lemma ParseIntIs(s: string)
    ensures var v := Unsigned(s);
      && (Overflows(v) ==> ParseInt(s) == if "-" <= s then -9223372036854775808 else 9223372036854775807)
      && (v != "" && AllDigits(v) ==> ParseInt(s) == Clamp(if "-" <= s then -DecimalValue(v) else DecimalValue(v)))
      && (!Overflows(v) && (v == "" || !AllDigits(v)) ==> ParseInt(s) == 0)
  {
    var v := Unsigned(s);
    ScanIs(v);
    if AllDigits(v) && DecimalValue(v) > 0xFFFF_FFFF_FFFF_FFFF {
      assert v[..|v|] == v && OverflowsAt(v, |v|);
    }
    hide Overflows, OverflowsAt, AllDigits, DecimalValue, ParseScan;
    assert "-" <= s <==> s != "" && s[0] == '-';
    assert "+" <= s <==> s != "" && s[0] == '+';
  }

  lemma {:induction false} ParseDigits(n: nat)
    requires n <= MAX_UINT64
    ensures ParseScan(Digits(n)) == Value(n)
  {
    if n < 10 {
      var s := [Digit(n)];
      assert s[..0] == "";
      assert ParseScan("") == Value(0);
    } else {
      ParseDigits(n / 10);
      var s := Digits(n);
      assert s[..|s| - 1] == Digits(n / 10);
    }
  }

  lemma ParseFormat(x: Int64)
    ensures ParseInt(FormatInt(x)) == x
  {
    if x < 0 {
      var m: nat := -(x as int);
      ParseDigits(m);
      assert FormatInt(x)[1..] == Digits(m);
    } else {
      ParseDigits(x);
      assert FormatInt(x)[0] in FormatInt(x);
    }
  }

  lemma FormatIntPlain(x: int, c: char)
    requires c != '-' && !('0' <= c <= '9')
    ensures c !in FormatInt(x)
  {
  }

  lemma FormatIntTrimmed(x: int)
    ensures FormatInt(x) != "" && NoSpace(FormatInt(x)) && IsTrimmed(FormatInt(x))
  {
    var s := FormatInt(x);
    assert s[0] in s && s[|s| - 1] in s;
  }
}
