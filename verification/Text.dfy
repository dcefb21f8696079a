/** `str.strip()`: the whitespace it knows, and what it leaves. */
module Text {

  predicate IsSpace(c: char) {
    || '\t' <= c <= '\r'
    || '\U{1C}' <= c <= ' '
    || c == '\U{85}' || c == '\U{A0}' || c == '\U{1680}'
    || '\U{2000}' <= c <= '\U{200A}'
    || c == '\U{2028}' || c == '\U{2029}' || c == '\U{202F}' || c == '\U{205F}' || c == '\U{3000}'
  }

  predicate IsTrimmed(s: string) {
    s != [] ==> !IsSpace(s[0]) && !IsSpace(s[|s| - 1])
  }

  function Strip(s: string): (r: string)
    ensures IsTrimmed(r)
    ensures IsTrimmed(s) ==> r == s
  {
    if s != [] && IsSpace(s[0]) then Strip(s[1..])
    else if s != [] && IsSpace(s[|s| - 1]) then Strip(s[..|s| - 1])
    else s
  }

  ghost predicate AllSpace(s: string) {
    forall i :: 0 <= i < |s| ==> IsSpace(s[i])
  }

  /** Only whitespace goes, and only from the two ends. */
  lemma {:induction false} StripTakesSpaceOnly(s: string) returns (left: string, right: string)
    ensures s == left + Strip(s) + right
    ensures AllSpace(left) && AllSpace(right)
  {
    left, right := [], [];
    if s != [] && IsSpace(s[0]) {
      left, right := StripTakesSpaceOnly(s[1..]);
      Regroup([s[0]], left, Strip(s[1..]), right);
      left := [s[0]] + left;
    } else if s != [] && IsSpace(s[|s| - 1]) {
      left, right := StripTakesSpaceOnly(s[..|s| - 1]);
      RegroupEnd(s[..|s| - 1], left + Strip(s), right, s[|s| - 1]);
      assert s == s[..|s| - 1] + [s[|s| - 1]];
      right := right + [s[|s| - 1]];
    }
  }

  /** Nothing is left exactly of a text that is nothing but whitespace. */
  lemma {:induction false} StripsToNothingExactly(s: string)
    ensures Strip(s) == "" <==> AllSpace(s)
  {
    var left, right := StripTakesSpaceOnly(s);
    if Strip(s) != "" {
      assert s[|left|] == Strip(s)[0];
    }
  }

  /** The characters that count as whitespace, by their code points. */
  lemma SpacesAre(c: char)
    ensures IsSpace(c) <==>
      c as int in {9, 10, 11, 12, 13, 28, 29, 30, 31, 32, 133, 160, 5760, 8192, 8193, 8194, 8195, 8196, 8197, 8198,
                   8199, 8200, 8201, 8202, 8232, 8233, 8239, 8287, 12288}
  {
  }

  lemma RegroupEnd(front: string, a: string, b: string, c: char)
    requires front == a + b
    ensures front + [c] == a + (b + [c])
  {
  }

  lemma Regroup(a: string, b: string, c: string, d: string)
    ensures a + (b + c + d) == a + b + c + d
  {
  }
}
