/** ASCII models of the Python `str` operations the inventory code relies on:
    `lower`, `strip`, `split`/`join`, `replace`, `startswith`, ordering,
    `int(...)` and `str(int)`. */
module Text {
  import opened Wrappers

  /** `str.isspace` restricted to ASCII: space, \t \n \v \f \r and the four
      separator controls \x1c-\x1f. */
  predicate IsSpace(c: char) {
    c == ' ' || c == '\t' || c == '\n' || c == '\r'
    || c == '\U{0B}' || c == '\U{0C}'
    || c == '\U{1C}' || c == '\U{1D}' || c == '\U{1E}' || c == '\U{1F}'
  }

  predicate IsDigit(c: char) {
    '0' <= c <= '9'
  }

  predicate AllDigits(s: string) {
    forall i :: 0 <= i < |s| ==> IsDigit(s[i])
  }

  predicate IsUpper(c: char) {
    'A' <= c <= 'Z'
  }

  function LowerChar(c: char): (r: char)
    ensures !IsUpper(r)
    ensures !IsUpper(c) ==> r == c
  {
    if IsUpper(c) then (c as int - 'A' as int + 'a' as int) as char else c
  }

  /** `str.lower()`. */
  function Lower(s: string): (r: string)
    ensures |r| == |s|
    ensures forall i :: 0 <= i < |s| ==> r[i] == LowerChar(s[i])
  {
    if s == [] then [] else [LowerChar(s[0])] + Lower(s[1..])
  }

  /** A string that `lower()` leaves alone. */
  predicate IsLower(s: string) {
    forall i :: 0 <= i < |s| ==> !IsUpper(s[i])
  }

  lemma LowerIsLower(s: string)
    ensures IsLower(Lower(s))
    ensures IsLower(s) <==> Lower(s) == s
  {
    if IsLower(s) {
      assert forall i :: 0 <= i < |s| ==> Lower(s)[i] == s[i];
    }
  }

  lemma LowerTail(s: string)
    requires s != []
    ensures Lower(s)[1..] == Lower(s[1..])
  {
  }

  /** Lower-casing brings in no character that is not a letter. */
  lemma LowerKeepsAbsent(s: string, c: char)
    requires !('a' <= c <= 'z') && c !in s
    ensures c !in Lower(s)
  {
  }

  lemma LowerIdempotent(s: string)
    ensures Lower(Lower(s)) == Lower(s)
  {
    LowerIsLower(s);
    LowerIsLower(Lower(s));
  }

  /** `Lower` is determined character by character. */
  lemma LowerPointwise(s: string, l: string)
    requires |s| == |l| && forall i :: 0 <= i < |s| ==> l[i] == LowerChar(s[i])
    ensures Lower(s) == l
  {
  }

  lemma LowerAppend(a: string, b: string)
    ensures Lower(a + b) == Lower(a) + Lower(b)
  {
    assert forall i :: 0 <= i < |a + b| ==> Lower(a + b)[i] == (Lower(a) + Lower(b))[i];
  }

  /** Drops leading whitespace. */
  function TrimLeft(s: string): string
  {
    if s != [] && IsSpace(s[0]) then TrimLeft(s[1..]) else s
  }

  /** Drops trailing whitespace. */
  function TrimRight(s: string): string
  {
    if s != [] && IsSpace(s[|s| - 1]) then TrimRight(s[..|s| - 1]) else s
  }

  /** `TrimLeft` keeps a suffix that starts with a non-space, and what it
      drops is whitespace. */
  lemma {:induction false} TrimLeftSpec(s: string)
    ensures |TrimLeft(s)| <= |s| && TrimLeft(s) == s[|s| - |TrimLeft(s)|..]
    ensures TrimLeft(s) == [] || !IsSpace(TrimLeft(s)[0])
    ensures forall i :: 0 <= i < |s| - |TrimLeft(s)| ==> IsSpace(s[i])
  {
    if s != [] && IsSpace(s[0]) {
      TrimLeftSpec(s[1..]);
      DropDrop(s, 1, |s| - 1 - |TrimLeft(s[1..])|);
    }
  }

  lemma DropDrop(s: string, i: nat, j: nat)
    requires i + j <= |s|
    ensures s[i..][j..] == s[i + j..]
  {
  }

  /** `TrimRight` keeps a prefix that ends with a non-space, and what it
      drops is whitespace. */
  lemma {:induction false} TrimRightSpec(s: string)
    ensures |TrimRight(s)| <= |s| && TrimRight(s) == s[..|TrimRight(s)|]
    ensures TrimRight(s) == [] || !IsSpace(TrimRight(s)[|TrimRight(s)| - 1])
    ensures forall i :: |TrimRight(s)| <= i < |s| ==> IsSpace(s[i])
  {
    if s != [] && IsSpace(s[|s| - 1]) {
      TrimRightSpec(s[..|s| - 1]);
    }
  }

  /** A string ending in a non-space is its own `TrimRight`. */
  lemma TrimRightKeeps(s: string)
    requires s != [] && !IsSpace(s[|s| - 1])
    ensures TrimRight(s) == s
  {
  }

  /** `str.strip()`: the longest infix of `s` without whitespace at either end. */
  function Strip(s: string): (r: string)
  {
    TrimRight(TrimLeft(s))
  }

  /** No whitespace at either end: `strip()` has nothing to remove. */
  predicate IsStripped(s: string) {
    s == [] || (!IsSpace(s[0]) && !IsSpace(s[|s| - 1]))
  }

  lemma StripSpec(s: string)
    ensures IsStripped(Strip(s))
    ensures exists i, j :: 0 <= i <= j <= |s| && Strip(s) == s[i..j]
                           && (forall k :: 0 <= k < i ==> IsSpace(s[k]))
                           && (forall k :: j <= k < |s| ==> IsSpace(s[k]))
  {
    var t := TrimLeft(s);
    var r := TrimRight(t);
    TrimLeftSpec(s);
    TrimRightSpec(t);
    var i := |s| - |t|;
    var j := i + |r|;
    assert r == s[i..j];
    assert forall k :: j <= k < |s| ==> s[k] == t[k - i];
  }

  lemma StripOfStripped(s: string)
    requires IsStripped(s)
    ensures Strip(s) == s
  {
  }

  /** `strip()` looks through any amount of leading whitespace. */
  lemma {:induction false} StripLeadingSpace(w: string, s: string)
    requires forall i :: 0 <= i < |w| ==> IsSpace(w[i])
    ensures Strip(w + s) == Strip(s)
    decreases |w|
  {
    if w == [] {
      assert w + s == s;
    } else {
      assert (w + s)[1..] == w[1..] + s;
      assert TrimLeft(w + s) == TrimLeft(w[1..] + s);
      StripLeadingSpace(w[1..], s);
    }
  }

  /** `strip()` has nothing left to remove from its own result. */
  lemma StripIdempotent(s: string)
    ensures Strip(Strip(s)) == Strip(s)
  {
    StripSpec(s);
    StripOfStripped(Strip(s));
  }

  /** A string of whitespace strips to nothing. */
  lemma StripAllSpace(w: string)
    requires forall i :: 0 <= i < |w| ==> IsSpace(w[i])
    ensures Strip(w) == ""
  {
    StripLeadingSpace(w, "");
    assert w + "" == w;
  }

  lemma {:induction false} TrimLeftLower(s: string)
    ensures TrimLeft(Lower(s)) == Lower(TrimLeft(s))
    decreases |s|
  {
    if s != [] {
      LowerTail(s);
      TrimLeftLower(s[1..]);
    }
  }

  lemma {:induction false} TrimRightLower(s: string)
    ensures TrimRight(Lower(s)) == Lower(TrimRight(s))
    decreases |s|
  {
    if s != [] {
      var p := s[..|s| - 1];
      var l := Lower(s);
      assert l[|s| - 1] == LowerChar(s[|s| - 1]);
      if IsSpace(s[|s| - 1]) {
        assert IsSpace(l[|l| - 1]);
        assert l[..|l| - 1] == Lower(p);
        TrimRightLower(p);
      } else {
        assert !IsSpace(l[|l| - 1]);
      }
    }
  }

  /** Trimming and lower-casing commute. */
  lemma StripLower(s: string)
    ensures Strip(Lower(s)) == Lower(Strip(s))
  {
    TrimLeftLower(s);
    TrimRightLower(TrimLeft(s));
  }

  /** `s.replace(c, "")`: every occurrence of `c` removed, order kept. */
  function RemoveChar(s: string, c: char): (r: string)
    ensures c !in r
    ensures |r| <= |s|
    ensures c !in s ==> r == s
  {
    if s == [] then []
    else if s[0] == c then RemoveChar(s[1..], c)
    else [s[0]] + RemoveChar(s[1..], c)
  }

  lemma {:induction false} RemoveCharAppend(a: string, b: string, c: char)
    ensures RemoveChar(a + b, c) == RemoveChar(a, c) + RemoveChar(b, c)
    decreases |a|
  {
    if a == [] {
      assert a + b == b;
    } else {
      DropAppend(a, b, 1);
      RemoveCharAppend(a[1..], b, c);
      AppendAssoc([a[0]], RemoveChar(a[1..], c), RemoveChar(b, c));
    }
  }

  /** Length of the longest prefix of `s` without whitespace. */
  function WordLength(s: string): (n: nat)
    ensures n <= |s|
  {
    if s == [] || IsSpace(s[0]) then 0 else 1 + WordLength(s[1..])
  }

  lemma {:induction false} WordLengthSpec(s: string)
    ensures forall i :: 0 <= i < WordLength(s) ==> !IsSpace(s[i])
    ensures WordLength(s) < |s| ==> IsSpace(s[WordLength(s)])
  {
    if s != [] && !IsSpace(s[0]) {
      WordLengthSpec(s[1..]);
    }
  }

  /** `str.split()` with no separator: the maximal whitespace-free runs. */
  function Words(s: string): seq<string>
    decreases |s|
  {
    if s == [] then []
    else if IsSpace(s[0]) then Words(s[1..])
    else
      var n := WordLength(s);
      [s[..n]] + Words(s[n..])
  }

  /** `" ".join(ws)`. */
  function JoinWords(ws: seq<string>): string
  {
    if |ws| == 0 then ""
    else if |ws| == 1 then ws[0]
    else ws[0] + " " + JoinWords(ws[1..])
  }

  /** `" ".join(s.split())`: trims `s` and collapses each run of whitespace
      to one space. */
  function Collapse(s: string): string
  {
    JoinWords(Words(s))
  }

  /** Text that `Collapse` leaves alone: no whitespace at the ends, and every
      inner whitespace character is a single plain space. */
  predicate IsCollapsed(s: string) {
    && IsStripped(s)
    && forall i :: 0 <= i < |s| - 1 && IsSpace(s[i]) ==> s[i] == ' ' && !IsSpace(s[i + 1])
  }

  lemma {:induction false} CollapseOfCollapsed(s: string)
    requires IsCollapsed(s)
    ensures Collapse(s) == s
    ensures s != [] ==> Words(s) != []
    decreases |s|
  {
    if s != [] {
      var n := WordLength(s);
      WordLengthSpec(s);
      if n < |s| {
        var t := s[n + 1..];
        CollapsedAfterSpace(s, n);
        CollapseOfCollapsed(t);
        JoinCons(s[..n], Words(t));
        SplitAround(s, n);
      } else {
        OneWord(s);
      }
    }
  }

  /** Text without whitespace is a single word. */
  lemma OneWord(s: string)
    requires s != [] && WordLength(s) == |s|
    ensures Words(s) == [s]
  {
    assert s[|s|..] == [] && s[..|s|] == s;
  }

  /** After an inner space of collapsed text come the words of the
      collapsed rest. */
  lemma CollapsedAfterSpace(s: string, n: nat)
    requires IsCollapsed(s) && n < |s| && IsSpace(s[n])
    ensures s[n] == ' ' && IsCollapsed(s[n + 1..])
    ensures Words(s[n..]) == Words(s[n + 1..])
  {
    var t := s[n + 1..];
    DropDrop(s, n, 1);
    assert forall i :: 0 <= i < |t| ==> t[i] == s[n + 1 + i];
  }

  /** Joining a word in front of a non-empty list puts one space after it. */
  lemma JoinCons(w: string, ws: seq<string>)
    requires ws != []
    ensures JoinWords([w] + ws) == w + " " + JoinWords(ws)
  {
    assert ([w] + ws)[1..] == ws;
  }

  /** A string cut around its character at `n`. */
  lemma SplitAround(s: string, n: nat)
    requires n < |s| && s[n] == ' '
    ensures s == s[..n] + " " + s[n + 1..]
  {
  }

  lemma LowerKeepsSpace(s: string)
    ensures forall i :: 0 <= i < |s| ==> (IsSpace(Lower(s)[i]) <==> IsSpace(s[i]))
    ensures forall i :: 0 <= i < |s| && IsSpace(s[i]) ==> Lower(s)[i] == s[i]
  {
  }

  lemma LowerKeepsCollapsed(s: string)
    requires IsCollapsed(s)
    ensures IsCollapsed(Lower(s))
  {
    LowerKeepsSpace(s);
  }

  lemma TakeTake(s: string, i: nat, j: nat)
    requires i <= j <= |s|
    ensures s[..j][..i] == s[..i]
  {
  }

  lemma TakeDrop(s: string, i: nat, j: nat)
    requires i <= j <= |s|
    ensures s[..j][i..] == s[i..][..j - i]
  {
  }

  /** The two halves of a concatenation. */
  lemma AppendParts(a: string, b: string)
    ensures (a + b)[..|a|] == a && (a + b)[|a|..] == b
  {
  }

  lemma AppendAssoc(a: string, b: string, c: string)
    ensures (a + b) + c == a + (b + c)
  {
  }

  lemma DropAppend(a: string, b: string, k: nat)
    requires k <= |a|
    ensures (a + b)[k..] == a[k..] + b
  {
  }

  /** A string is its prefix and suffix at any cut. */
  lemma SplitAt(s: string, n: nat)
    requires n <= |s|
    ensures s[..n] + s[n..] == s
  {
  }

  predicate StartsWith(s: string, prefix: string) {
    |prefix| <= |s| && s[..|prefix|] == prefix
  }

  /** Index of the first `c` in `s`, if any. */
  function IndexOf(s: string, c: char): (r: Option<nat>)
    ensures r.Some? ==> r.value < |s| && s[r.value] == c && c !in s[..r.value]
    ensures r.None? ==> c !in s
  {
    if s == [] then None
    else if s[0] == c then Some(0)
    else match IndexOf(s[1..], c)
      case None => None
      case Some(i) => assert s[1..][..i] == s[1..i + 1]; Some(i + 1)
  }

  /** Python's `a < b` on strings: lexicographic by code point, a proper
      prefix first. */
  predicate LexLess(a: string, b: string) {
    if a == [] then b != []
    else if b == [] then false
    else if a[0] != b[0] then a[0] < b[0]
    else LexLess(a[1..], b[1..])
  }

  lemma {:induction false} LexLessIrreflexive(a: string)
    ensures !LexLess(a, a)
  {
    if a != [] {
      LexLessIrreflexive(a[1..]);
    }
  }

  lemma {:induction false} LexLessTransitive(a: string, b: string, c: string)
    requires LexLess(a, b) && LexLess(b, c)
    ensures LexLess(a, c)
  {
    if a != [] && b != [] && c != [] && a[0] == b[0] && b[0] == c[0] {
      LexLessTransitive(a[1..], b[1..], c[1..]);
    }
  }

  lemma {:induction false} LexLessAsymmetric(a: string, b: string)
    ensures !(LexLess(a, b) && LexLess(b, a))
  {
    if a != [] && b != [] && a[0] == b[0] {
      LexLessAsymmetric(a[1..], b[1..]);
    }
  }

  lemma {:induction false} LexLessTotal(a: string, b: string)
    ensures a == b || LexLess(a, b) || LexLess(b, a)
  {
    if a != [] && b != [] && a[0] == b[0] {
      LexLessTotal(a[1..], b[1..]);
      if a[1..] == b[1..] {
        assert a == [a[0]] + a[1..] && b == [b[0]] + b[1..];
      }
    }
  }
}
