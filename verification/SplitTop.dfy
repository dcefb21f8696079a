/** `split_top`: cutting a text at the separators outside quotes and brackets, and how joining and
    cutting undo each other. */
module SplitTop {
  import opened Wrappers
  import opened Text

  /** Where a scan stands: open brackets, the open quote if any, and whether it has just seen a backslash
      inside the quote. */
  datatype Scan = Scan(depth: nat, quote: Option<char>, escaped: bool)

  const START := Scan(0, None, false)

  predicate IsQuote(c: char) {
    c == '\'' || c == '"'
  }

  predicate Opens(c: char) {
    c == '(' || c == '[' || c == '{'
  }

  predicate Closes(c: char) {
    c == ')' || c == ']' || c == '}'
  }

  // ----- Specification -----

  /** What one character does; a closing bracket without an opening one does nothing. */
  function Step(s: Scan, c: char): Scan {
    if s.quote.Some? then
      if s.escaped then s.(escaped := false)
      else if c == '\\' then s.(escaped := true)
      else if Some(c) == s.quote then s.(quote := None)
      else s
    else if IsQuote(c) then s.(quote := Some(c))
    else if Opens(c) then s.(depth := s.depth + 1)
    else if Closes(c) && s.depth > 0 then s.(depth := s.depth - 1)
    else s
  }

  ghost function ScanOf(value: string, n: nat): Scan
    requires n <= |value|
  {
    if n == 0 then START else Step(ScanOf(value, n - 1), value[n - 1])
  }

  /** Position `i` holds a separator outside quotes and brackets. */
  ghost predicate Cuts(value: string, sep: char, i: nat)
    requires i < |value|
  {
    && value[i] == sep && !IsQuote(sep) && !Opens(sep) && !Closes(sep)
    && ScanOf(value, i).depth == 0 && ScanOf(value, i).quote == None
  }

  /** The start of the piece that position `n` is in. */
  ghost function LastStart(value: string, sep: char, n: nat): (start: nat)
    requires n <= |value|
    ensures start <= n
  {
    if n == 0 then 0 else if Cuts(value, sep, n - 1) then n else LastStart(value, sep, n - 1)
  }

  /** The pieces that a separator before position `n` ends. */
  ghost function Ended(value: string, sep: char, n: nat): seq<string>
    requires n <= |value|
  {
    if n == 0 then []
    else if Cuts(value, sep, n - 1) then Ended(value, sep, n - 1) + [value[LastStart(value, sep, n - 1)..n - 1]]
    else Ended(value, sep, n - 1)
  }

  /** The text between the cuts, untrimmed. */
  ghost function Slices(value: string, sep: char): seq<string> {
    Ended(value, sep, |value|) + [value[LastStart(value, sep, |value|)..]]
  }

  function Trimmed(pieces: seq<string>): seq<string> {
    seq(|pieces|, i requires 0 <= i < |pieces| => Strip(pieces[i]))
  }

  function NonEmpty(pieces: seq<string>): seq<string> {
    if pieces == [] then []
    else NonEmpty(pieces[..|pieces| - 1]) + if pieces[|pieces| - 1] != "" then [pieces[|pieces| - 1]] else []
  }

  // ----- Program -----

  method SplitTop(value: string, sep: char) returns (pieces: seq<string>)
    ensures pieces == NonEmpty(Trimmed(Slices(value, sep)))
    ensures !IsSeparator(sep) ==> pieces == if Strip(value) == "" then [] else [Strip(value)]
  {
    var out: seq<string> := [];
    var start, depth: nat, quote: Option<char>, escaped := 0, 0, None, false;
    for index := 0 to |value|
      invariant ScanOf(value, index) == Scan(depth, quote, escaped)
      invariant start == LastStart(value, sep, index) && out == Trimmed(Ended(value, sep, index))
    {
      var c := value[index];
      if quote.Some? {
        if escaped {
          escaped := false;
        } else if c == '\\' {
          escaped := true;
        } else if c == quote.value {
          quote := None;
        }
        continue;
      }
      if IsQuote(c) {
        quote := Some(c);
        continue;
      }
      if Opens(c) {
        depth := depth + 1;
      } else if Closes(c) {
        depth := if depth > 0 then depth - 1 else 0;
      } else if c == sep && depth == 0 {
        out := out + [Strip(value[start..index])];
        start := index + 1;
      }
    }
    out := out + [Strip(value[start..])];
    assert out == Trimmed(Slices(value, sep));
    if !IsSeparator(sep) {
      BracketsNeverCut(value, sep, |value|);
      OnlyPiece(Strip(value));
    }
    return NonEmpty(out);
  }

  // ----- Joining the slices -----

  /** The pieces, each followed by the separator. */
  function Terminated(pieces: seq<string>, sep: char): string {
    if pieces == [] then "" else Terminated(pieces[..|pieces| - 1], sep) + pieces[|pieces| - 1] + [sep]
  }

  function Join(pieces: seq<string>, sep: char): string {
    if pieces == [] then "" else Terminated(pieces[..|pieces| - 1], sep) + pieces[|pieces| - 1]
  }

  lemma TerminatedAppend(pieces: seq<string>, piece: string, sep: char)
    ensures Terminated(pieces + [piece], sep) == Terminated(pieces, sep) + piece + [sep]
    ensures Join(pieces + [piece], sep) == Terminated(pieces, sep) + piece
  {
    assert (pieces + [piece])[..|pieces|] == pieces;
  }

  lemma Associates(a: string, b: string, c: string)
    ensures a + (b + c) == a + b + c
  {
  }

  lemma {:induction false} EndedRejoin(value: string, sep: char, n: nat)
    requires n <= |value|
    ensures Terminated(Ended(value, sep, n), sep) + value[LastStart(value, sep, n)..n] == value[..n]
  {
    if n > 0 {
      EndedRejoin(value, sep, n - 1);
      var start := LastStart(value, sep, n - 1);
      assert value[..n] == value[..n - 1] + [value[n - 1]];
      if Cuts(value, sep, n - 1) {
        TerminatedAppend(Ended(value, sep, n - 1), value[start..n - 1], sep);
      } else {
        assert value[start..n] == value[start..n - 1] + [value[n - 1]];
        Associates(Terminated(Ended(value, sep, n - 1), sep), value[start..n - 1], [value[n - 1]]);
      }
    }
  }

  /** Joining the untrimmed slices gives back the text, whatever it is. */
  lemma SlicesRejoin(value: string, sep: char)
    ensures Join(Slices(value, sep), sep) == value
  {
    EndedRejoin(value, sep, |value|);
    TerminatedAppend(Ended(value, sep, |value|), value[LastStart(value, sep, |value|)..], sep);
    assert value[LastStart(value, sep, |value|)..|value|] == value[LastStart(value, sep, |value|)..];
    assert value[..|value|] == value;
  }

  // ----- Cutting a join -----

  /** No separator outside quotes and brackets. */
  ghost predicate IsUncut(piece: string, sep: char) {
    forall i :: 0 <= i < |piece| ==> !Cuts(piece, sep, i)
  }

  /** Quotes, escapes and brackets end with the piece. */
  ghost predicate IsClosed(piece: string) {
    ScanOf(piece, |piece|) == START
  }

  ghost predicate IsSeparator(sep: char) {
    !IsQuote(sep) && !Opens(sep) && !Closes(sep)
  }

  /** Pieces that could be told apart once joined: each but the last is closed. */
  ghost predicate AreSeparable(pieces: seq<string>, sep: char) {
    && pieces != []
    && (forall i :: 0 <= i < |pieces| ==> IsUncut(pieces[i], sep))
    && (forall i :: 0 <= i < |pieces| - 1 ==> IsClosed(pieces[i]))
  }

  /** From a position where nothing is open, a scan goes as it would at the beginning. */
  lemma {:induction false} ScanRestarts(value: string, from: nat, piece: string, j: nat)
    requires from + |piece| <= |value| && value[from..from + |piece|] == piece && ScanOf(value, from) == START
    requires j <= |piece|
    ensures ScanOf(value, from + j) == ScanOf(piece, j)
  {
    if j > 0 {
      ScanRestarts(value, from, piece, j - 1);
      assert value[from + j - 1] == piece[j - 1];
    }
  }

  /** An uncut piece inside a text ends no slice. */
  lemma {:induction false} PieceIsPassed(value: string, sep: char, from: nat, piece: string, j: nat)
    requires from + |piece| <= |value| && value[from..from + |piece|] == piece && ScanOf(value, from) == START
    requires IsUncut(piece, sep) && j <= |piece|
    ensures Ended(value, sep, from + j) == Ended(value, sep, from)
    ensures LastStart(value, sep, from + j) == LastStart(value, sep, from)
  {
    if j > 0 {
      PieceIsPassed(value, sep, from, piece, j - 1);
      ScanRestarts(value, from, piece, j - 1);
      assert value[from + j - 1] == piece[j - 1];
      assert !Cuts(piece, sep, j - 1);
    }
  }

  lemma {:induction false} TerminatedPrefix(pieces: seq<string>, sep: char, k: nat)
    requires k <= |pieces|
    ensures Terminated(pieces[..k], sep) <= Terminated(pieces, sep)
    decreases |pieces|
  {
    if k < |pieces| {
      TerminatedPrefix(pieces[..|pieces| - 1], sep, k);
      assert pieces[..|pieces| - 1][..k] == pieces[..k];
    } else {
      assert pieces[..k] == pieces;
    }
  }

  /** After the first `k` pieces and their separators a scan is back at the start of a piece. */
  lemma {:induction false} PiecesAreEnded(value: string, sep: char, pieces: seq<string>, k: nat)
    requires k <= |pieces| && Terminated(pieces, sep) <= value && IsSeparator(sep)
    requires forall i :: 0 <= i < |pieces| ==> IsUncut(pieces[i], sep) && IsClosed(pieces[i])
    ensures
      var at := |Terminated(pieces[..k], sep)|;
      && at <= |value| && ScanOf(value, at) == START
      && Ended(value, sep, at) == pieces[..k] && LastStart(value, sep, at) == at
  {
    if k > 0 {
      PiecesAreEnded(value, sep, pieces, k - 1);
      var before, piece := pieces[..k - 1], pieces[k - 1];
      TerminatedPrefix(pieces, sep, k);
      assert pieces[..k] == before + [piece];
      TerminatedAppend(before, piece, sep);
      NextPieceEnds(value, sep, Terminated(before, sep), before, piece);
    }
  }

  lemma NextPieceEnds(value: string, sep: char, ended: string, before: seq<string>, piece: string)
    requires ended + piece + [sep] <= value && IsSeparator(sep) && IsUncut(piece, sep) && IsClosed(piece)
    requires ScanOf(value, |ended|) == START && Ended(value, sep, |ended|) == before
    requires LastStart(value, sep, |ended|) == |ended|
    ensures
      var next := |ended + piece + [sep]|;
      && ScanOf(value, next) == START
      && Ended(value, sep, next) == before + [piece] && LastStart(value, sep, next) == next
  {
    assert value[|ended|..|ended| + |piece|] == piece;
    OnePieceEnds(value, sep, |ended|, piece);
  }

  lemma OnePieceEnds(value: string, sep: char, at: nat, piece: string)
    requires at + |piece| < |value| && value[at..at + |piece|] == piece && value[at + |piece|] == sep
    requires ScanOf(value, at) == START && LastStart(value, sep, at) == at && IsSeparator(sep)
    requires IsUncut(piece, sep) && IsClosed(piece)
    ensures
      var next := at + |piece| + 1;
      && ScanOf(value, next) == START && LastStart(value, sep, next) == next
      && Ended(value, sep, next) == Ended(value, sep, at) + [piece]
  {
    ScanRestarts(value, at, piece, |piece|);
    PieceIsPassed(value, sep, at, piece, |piece|);
    assert Cuts(value, sep, at + |piece|);
  }

  /** Cutting a join of separable pieces gives exactly these. */
  lemma JoinIsCut(pieces: seq<string>, sep: char)
    requires AreSeparable(pieces, sep) && IsSeparator(sep)
    ensures Slices(Join(pieces, sep), sep) == pieces
  {
    var ended, last := pieces[..|pieces| - 1], pieces[|pieces| - 1];
    assert ended[..|ended|] == ended;
    PiecesAreEnded(Join(pieces, sep), sep, ended, |ended|);
    LastIsLeft(Join(pieces, sep), sep, ended, last);
  }

  lemma LastIsLeft(value: string, sep: char, ended: seq<string>, last: string)
    requires value == Terminated(ended, sep) + last && IsUncut(last, sep)
    requires
      var at := |Terminated(ended, sep)|;
      ScanOf(value, at) == START && Ended(value, sep, at) == ended && LastStart(value, sep, at) == at
    ensures Slices(value, sep) == ended + [last]
  {
    var at := |Terminated(ended, sep)|;
    assert value[at..at + |last|] == last;
    assert value[at..] == last;
    PieceIsPassed(value, sep, at, last, |last|);
  }

  // ----- What is cut is separable -----

  lemma {:induction false} EscapedInQuotesOnly(value: string, n: nat)
    requires n <= |value|
    ensures ScanOf(value, n).escaped ==> ScanOf(value, n).quote.Some?
  {
    if n > 0 {
      EscapedInQuotesOnly(value, n - 1);
    }
  }

  lemma {:induction false} StartsAtStart(value: string, sep: char, n: nat)
    requires n <= |value|
    ensures ScanOf(value, LastStart(value, sep, n)) == START
  {
    if n > 0 {
      StartsAtStart(value, sep, n - 1);
      EscapedInQuotesOnly(value, n - 1);
    }
  }

  lemma {:induction false} NoCutSince(value: string, sep: char, n: nat, i: nat)
    requires i < n <= |value| && LastStart(value, sep, n) <= i
    ensures !Cuts(value, sep, i)
  {
    if i < n - 1 {
      NoCutSince(value, sep, n - 1, i);
    }
  }

  lemma SliceIsUncut(value: string, sep: char, n: nat)
    requires n <= |value|
    ensures IsUncut(value[LastStart(value, sep, n)..n], sep)
    ensures ScanOf(value[LastStart(value, sep, n)..n], n - LastStart(value, sep, n)) == ScanOf(value, n)
  {
    var start := LastStart(value, sep, n);
    var slice := value[start..n];
    StartsAtStart(value, sep, n);
    ScanRestarts(value, start, slice, |slice|);
    forall i | 0 <= i < |slice|
      ensures !Cuts(slice, sep, i)
    {
      ScanRestarts(value, start, slice, i);
      NoCutSince(value, sep, n, start + i);
    }
  }

  lemma {:induction false} EndedAreSeparable(value: string, sep: char, n: nat)
    requires n <= |value|
    ensures forall i :: 0 <= i < |Ended(value, sep, n)| ==>
      IsUncut(Ended(value, sep, n)[i], sep) && IsClosed(Ended(value, sep, n)[i])
  {
    if n > 0 {
      EndedAreSeparable(value, sep, n - 1);
      if Cuts(value, sep, n - 1) {
        SliceIsUncut(value, sep, n - 1);
        EscapedInQuotesOnly(value, n - 1);
      }
    }
  }

  /** The slices are the one way to see a text as a join of separable pieces. */
  lemma SlicesAreUnique(value: string, pieces: seq<string>, sep: char)
    requires IsSeparator(sep)
    ensures pieces == Slices(value, sep) <==> AreSeparable(pieces, sep) && Join(pieces, sep) == value
  {
    var n := |value|;
    SlicesRejoin(value, sep);
    EndedAreSeparable(value, sep, n);
    SliceIsUncut(value, sep, n);
    assert value[LastStart(value, sep, n)..n] == value[LastStart(value, sep, n)..];
    if AreSeparable(pieces, sep) && Join(pieces, sep) == value {
      JoinIsCut(pieces, sep);
    }
  }

  // ----- Items, by their characters -----

  /** One character between quotes, or a backslash and the character it escapes. */
  datatype Unit = Char(c: char) | Escape(c: char)

  datatype Part =
    | Plain(c: char)
    | Quoted(quote: char, units: seq<Unit>)
    | Bracketed(open: char, close: char, parts: seq<Part>)

  function SpellUnits(units: seq<Unit>): string {
    if units == [] then ""
    else
      (match units[0]
       case Char(c) => [c]
       case Escape(c) => ['\\', c]) + SpellUnits(units[1..])
  }

  function SpellPart(part: Part): string
    decreases part, 1, 0
  {
    match part
    case Plain(c) => [c]
    case Quoted(quote, units) => [quote] + SpellUnits(units) + [quote]
    case Bracketed(open, close, parts) => [open] + Spell(parts) + [close]
  }

  function Spell(parts: seq<Part>): string
    decreases parts, 0, |parts|
  {
    if parts == [] then "" else SpellPart(parts[0]) + Spell(parts[1..])
  }

  ghost predicate AreUnits(units: seq<Unit>, quote: char) {
    forall i :: 0 <= i < |units| && units[i].Char? ==> units[i].c != quote && units[i].c != '\\'
  }

  /** A plain character is no quote and no bracket, except that a closing bracket may stand where none is
      open; text is quoted by a pair of like quotes; whatever is between brackets is made of parts. */
  ghost predicate IsPart(part: Part, nested: bool)
    decreases part, 1, 0
  {
    match part
    case Plain(c) => c !in "'\"([{" && (nested ==> c !in ")]}")
    case Quoted(quote, units) => quote in "'\"" && AreUnits(units, quote)
    case Bracketed(open, close, parts) => open in "([{" && close in ")]}" && AreParts(parts, true)
  }

  ghost predicate AreParts(parts: seq<Part>, nested: bool)
    decreases parts, 0, |parts|
  {
    parts != [] ==> IsPart(parts[0], nested) && AreParts(parts[1..], nested)
  }

  /** An item may hold the separator between quotes and brackets only. */
  ghost predicate IsItem(parts: seq<Part>, sep: char) {
    AreParts(parts, false) && Plain(sep) !in parts
  }

  /** The text stands at a position. */
  ghost predicate Stands(value: string, at: nat, text: string) {
    at + |text| <= |value| && value[at..at + |text|] == text
  }

  lemma StandsSplit(value: string, at: nat, a: string, b: string)
    requires Stands(value, at, a + b)
    ensures Stands(value, at, a) && Stands(value, at + |a|, b)
  {
    var text := value[at..at + |a + b|];
    assert text[..|a|] == a && text[|a|..] == b;
    assert value[at..at + |a|] == text[..|a|];
    assert value[at + |a|..at + |a| + |b|] == text[|a|..];
  }

  /** No cut from position `at` up to `end`, and the scan is back where it was. */
  ghost predicate Passes(value: string, sep: char, at: nat, end: nat)
    requires at <= end <= |value|
  {
    ScanOf(value, end) == ScanOf(value, at) && forall j :: at <= j < end ==> !Cuts(value, sep, j)
  }

  lemma PassesOn(value: string, sep: char, at: nat, mid: nat, end: nat)
    requires at <= mid <= end <= |value| && Passes(value, sep, at, mid) && Passes(value, sep, mid, end)
    ensures Passes(value, sep, at, end)
  {
  }

  lemma {:induction false} UnitsPass(value: string, sep: char, at: nat, units: seq<Unit>, quote: char, depth: nat)
    requires Stands(value, at, SpellUnits(units)) && AreUnits(units, quote)
    requires ScanOf(value, at) == Scan(depth, Some(quote), false)
    ensures Passes(value, sep, at, at + |SpellUnits(units)|)
    decreases |units|
  {
    if units != [] {
      var first := match units[0] case Char(c) => [c] case Escape(c) => ['\\', c];
      StandsSplit(value, at, first, SpellUnits(units[1..]));
      assert value[at] == first[0];
      if units[0].Escape? {
        assert value[at + 1] == first[1];
        assert ScanOf(value, at + 1) == Scan(depth, Some(quote), true);
      }
      assert ScanOf(value, at + |first|) == Scan(depth, Some(quote), false);
      UnitsPass(value, sep, at + |first|, units[1..], quote, depth);
      PassesOn(value, sep, at, at + |first|, at + |SpellUnits(units)|);
    }
  }

  lemma EnclosedStands(value: string, at: nat, a: char, inner: string, b: char)
    requires Stands(value, at, [a] + inner + [b])
    ensures at + |inner| + 2 <= |value| && value[at] == a && value[at + 1 + |inner|] == b
    ensures Stands(value, at + 1, inner)
  {
    StandsSplit(value, at, [a] + inner, [b]);
    StandsSplit(value, at, [a], inner);
    assert value[at..at + 1] == [a] && value[at + 1 + |inner|..at + 1 + |inner| + 1] == [b];
  }

  lemma EnclosedPasses(value: string, sep: char, at: nat, n: nat)
    requires at + n + 2 <= |value| && Passes(value, sep, at + 1, at + 1 + n)
    requires !Cuts(value, sep, at) && !Cuts(value, sep, at + 1 + n)
    requires Step(Step(ScanOf(value, at), value[at]), value[at + 1 + n]) == ScanOf(value, at)
    ensures Passes(value, sep, at, at + n + 2)
  {
    assert ScanOf(value, at + 1) == Step(ScanOf(value, at), value[at]);
    assert ScanOf(value, at + n + 2) == Step(ScanOf(value, at + 1 + n), value[at + 1 + n]);
  }

  lemma {:induction false} PartPasses(value: string, sep: char, at: nat, part: Part, depth: nat)
    requires Stands(value, at, SpellPart(part)) && IsPart(part, depth > 0) && IsSeparator(sep)
    requires ScanOf(value, at) == Scan(depth, None, false) && (depth == 0 ==> part != Plain(sep))
    ensures Passes(value, sep, at, at + |SpellPart(part)|)
    decreases part, 1, 0
  {
    match part
    case Plain(c) =>
      PlainPasses(value, sep, at, c, depth);
    case Quoted(quote, units) =>
      QuotesPass(value, sep, at, quote, units, depth);
    case Bracketed(open, close, parts) =>
      EnclosedStands(value, at, open, Spell(parts), close);
      BracketOpens(value, sep, at, depth);
      PartsPass(value, sep, at + 1, parts, depth + 1);
      BracketsPass(value, sep, at, |Spell(parts)|, depth);
  }

  lemma BracketsPass(value: string, sep: char, at: nat, n: nat, depth: nat)
    requires at + n + 2 <= |value| && value[at] in "([{" && value[at + 1 + n] in ")]}" && IsSeparator(sep)
    requires ScanOf(value, at) == Scan(depth, None, false) && ScanOf(value, at + 1) == Scan(depth + 1, None, false)
    requires !Cuts(value, sep, at) && Passes(value, sep, at + 1, at + 1 + n)
    ensures Passes(value, sep, at, at + n + 2)
  {
    BracketCloses(value, sep, at + 1 + n, depth);
    EnclosedPasses(value, sep, at, n);
  }

  lemma QuotesPass(value: string, sep: char, at: nat, quote: char, units: seq<Unit>, depth: nat)
    requires Stands(value, at, [quote] + SpellUnits(units) + [quote]) && IsPart(Quoted(quote, units), depth > 0)
    requires ScanOf(value, at) == Scan(depth, None, false) && IsSeparator(sep)
    ensures Passes(value, sep, at, at + |SpellUnits(units)| + 2)
  {
    var inner := SpellUnits(units);
    EnclosedStands(value, at, quote, inner, quote);
    assert ScanOf(value, at + 1) == Scan(depth, Some(quote), false);
    UnitsPass(value, sep, at + 1, units, quote, depth);
    EnclosedPasses(value, sep, at, |inner|);
  }

  lemma BracketOpens(value: string, sep: char, at: nat, depth: nat)
    requires at < |value| && value[at] in "([{" && ScanOf(value, at) == Scan(depth, None, false) && IsSeparator(sep)
    ensures ScanOf(value, at + 1) == Scan(depth + 1, None, false) && !Cuts(value, sep, at)
  {
  }

  lemma BracketCloses(value: string, sep: char, at: nat, depth: nat)
    requires at < |value| && value[at] in ")]}" && ScanOf(value, at) == Scan(depth + 1, None, false) && IsSeparator(sep)
    ensures Step(ScanOf(value, at), value[at]) == Scan(depth, None, false) && !Cuts(value, sep, at)
  {
  }

  lemma PlainPasses(value: string, sep: char, at: nat, c: char, depth: nat)
    requires Stands(value, at, [c]) && IsPart(Plain(c), depth > 0)
    requires ScanOf(value, at) == Scan(depth, None, false) && (depth == 0 ==> c != sep)
    ensures Passes(value, sep, at, at + 1)
  {
    assert value[at..at + 1][0] == value[at];
    assert ScanOf(value, at + 1) == Step(ScanOf(value, at), c);
  }

  lemma {:induction false} PartsPass(value: string, sep: char, at: nat, parts: seq<Part>, depth: nat)
    requires Stands(value, at, Spell(parts)) && AreParts(parts, depth > 0) && IsSeparator(sep)
    requires ScanOf(value, at) == Scan(depth, None, false) && (depth == 0 ==> Plain(sep) !in parts)
    ensures Passes(value, sep, at, at + |Spell(parts)|)
    decreases parts, 0, |parts|
  {
    if parts != [] {
      var first := SpellPart(parts[0]);
      StandsSplit(value, at, first, Spell(parts[1..]));
      PartPasses(value, sep, at, parts[0], depth);
      PartsPass(value, sep, at + |first|, parts[1..], depth);
      PassesOn(value, sep, at, at + |first|, at + |Spell(parts)|);
    }
  }

  lemma ItemIsSeparable(parts: seq<Part>, sep: char)
    requires IsItem(parts, sep) && IsSeparator(sep)
    ensures IsUncut(Spell(parts), sep) && IsClosed(Spell(parts))
  {
    var text := Spell(parts);
    assert text[0..|text|] == text;
    PartsPass(text, sep, 0, parts, 0);
  }

  /** Items joined by a separator that is no quote and no bracket are cut where they were joined, however many
      separators they hold between quotes and brackets; each is trimmed, and those of nothing but whitespace
      are left out. */
  lemma ItemsAreSplit(items: seq<seq<Part>>, sep: char) returns (kept: seq<nat>)
    requires sep !in "'\"()[]{}" && items != [] && forall i :: 0 <= i < |items| ==> IsItem(items[i], sep)
    ensures
      var texts := seq(|items|, i requires 0 <= i < |items| => Spell(items[i]));
      && Slices(Join(texts, sep), sep) == texts
      && AreKept(texts, NonEmpty(Trimmed(Slices(Join(texts, sep), sep))), kept)
  {
    var texts := seq(|items|, i requires 0 <= i < |items| => Spell(items[i]));
    forall i | 0 <= i < |items|
      ensures IsUncut(texts[i], sep) && IsClosed(texts[i])
    {
      ItemIsSeparable(items[i], sep);
    }
    JoinIsCut(texts, sep);
    kept := KeptPieces(texts);
  }

  /** `kept` lists the positions of the texts that are not blank, in order, and `pieces` these texts trimmed. */
  ghost predicate AreKept(texts: seq<string>, pieces: seq<string>, kept: seq<nat>) {
    && |pieces| == |kept|
    && (forall k, l :: 0 <= k < l < |kept| ==> kept[k] < kept[l])
    && (forall i :: i in kept <==> 0 <= i < |texts| && !AllSpace(texts[i]))
    && (forall k :: 0 <= k < |kept| ==> kept[k] < |texts| && pieces[k] == Strip(texts[kept[k]]))
  }

  lemma {:induction false} KeptPieces(texts: seq<string>) returns (kept: seq<nat>)
    ensures AreKept(texts, NonEmpty(Trimmed(texts)), kept)
  {
    kept := [];
    if texts != [] {
      var front, last := texts[..|texts| - 1], texts[|texts| - 1];
      kept := KeptPieces(front);
      var trimmed := Trimmed(texts);
      assert trimmed[..|trimmed| - 1] == Trimmed(front) && trimmed[|trimmed| - 1] == Strip(last);
      assert texts == front + [last];
      StripsToNothingExactly(last);
      OneMoreKept(front, NonEmpty(Trimmed(front)), kept, last);
      if Strip(last) != "" {
        kept := kept + [|front|];
      }
    }
  }

  lemma OneMoreKept(texts: seq<string>, pieces: seq<string>, kept: seq<nat>, last: string)
    requires AreKept(texts, pieces, kept)
    ensures AllSpace(last) ==> AreKept(texts + [last], pieces, kept)
    ensures !AllSpace(last) ==> AreKept(texts + [last], pieces + [Strip(last)], kept + [|texts|])
  {
    var more, longer := texts + [last], kept + [|texts|];
    assert forall i :: 0 <= i < |texts| ==> more[i] == texts[i];
    assert forall i :: i in longer <==> i in kept || i == |texts|;
  }

  // ----- The round trip -----

  /** Pieces that are trimmed, not empty, closed and uncut survive being joined and split. */
  lemma SplitInvertsJoin(pieces: seq<string>, sep: char)
    requires IsSeparator(sep)
    requires forall i :: 0 <= i < |pieces| ==>
      IsTrimmed(pieces[i]) && pieces[i] != "" && IsClosed(pieces[i]) && IsUncut(pieces[i], sep)
    ensures NonEmpty(Trimmed(Slices(Join(pieces, sep), sep))) == pieces
  {
    if pieces == [] {
      assert Slices("", sep) == [""];
      assert Trimmed([""]) == [""];
    } else {
      JoinIsCut(pieces, sep);
      assert Trimmed(pieces) == pieces;
      NonEmptyKeeps(pieces);
    }
  }

  lemma {:induction false} NonEmptyKeeps(pieces: seq<string>)
    requires forall i :: 0 <= i < |pieces| ==> pieces[i] != ""
    ensures NonEmpty(pieces) == pieces
  {
    if pieces != [] {
      NonEmptyKeeps(pieces[..|pieces| - 1]);
    }
  }

  lemma OnlyPiece(piece: string)
    ensures NonEmpty([piece]) == if piece == "" then [] else [piece]
  {
    assert [piece][..0] == [];
  }

  /** A separator that is a quote or a bracket never cuts. */
  lemma {:induction false} BracketsNeverCut(value: string, sep: char, n: nat)
    requires n <= |value| && !IsSeparator(sep)
    ensures Ended(value, sep, n) == [] && LastStart(value, sep, n) == 0
  {
    if n > 0 {
      BracketsNeverCut(value, sep, n - 1);
    }
  }
}
