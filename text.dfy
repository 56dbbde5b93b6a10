/**
 * The few Python `str` operations the crypto helpers rely on: `split(sep)`,
 * `split(None)`, `rpartition(sep)[2]`, `strip()` and `lower()`, restricted to
 * ASCII text (keys, hex digests and openssl output are ASCII).
 */
module Text {

  /** `str.isspace()` on the ASCII range: HT, LF, VT, FF, CR, the four
      information separators 0x1c-0x1f, and the space. */
  predicate IsSpace(c: char) {
    var k := c as int;
    (9 <= k <= 13) || (28 <= k <= 32)
  }

  predicate NoSpace(s: string) {
    forall i :: 0 <= i < |s| ==> !IsSpace(s[i])
  }

  predicate AllSpace(s: string) {
    forall i :: 0 <= i < |s| ==> IsSpace(s[i])
  }

  // ---------------------------------------------------------------------
  // s.split(sep) with an explicit one-character separator

  /** The inverse of `split`: `sep.join(parts)`. */
  function Join(parts: seq<string>, sep: char): string
    requires |parts| >= 1
  {
    if |parts| == 1 then parts[0] else parts[0] + [sep] + Join(parts[1..], sep)
  }

  /** `s.split(sep)`: never empty, no piece holds the separator, and joining
      the pieces back with the separator gives `s`. */
  function Split(s: string, sep: char): (parts: seq<string>)
    ensures |parts| >= 1
    ensures forall i :: 0 <= i < |parts| ==> sep !in parts[i]
    ensures Join(parts, sep) == s
  {
    if s == [] then [""]
    else
      var rest := Split(s[1..], sep);
      if s[0] == sep then [""] + rest
      else [[s[0]] + rest[0]] + rest[1..]
  }

  /** Three pieces joined: the two separators between them. */
  lemma JoinThree(a: string, b: string, c: string, sep: char)
    ensures Join([a, b, c], sep) == a + [sep] + b + [sep] + c
  {
    assert [a, b, c][1..] == [b, c];
    assert [b, c][1..] == [c];
    assert Join([b, c], sep) == b + [sep] + c;
    assert Join([a, b, c], sep) == a + [sep] + (b + [sep] + c);
  }

  /** Splitting a line of three separator-free fields gives the fields. */
  lemma SplitThree(a: string, b: string, c: string, sep: char)
    requires sep !in a && sep !in b && sep !in c
    ensures Split(a + [sep] + b + [sep] + c, sep) == [a, b, c]
  {
    JoinThree(a, b, c, sep);
    SplitJoin([a, b, c], sep);
  }

  /** Splitting is the inverse of joining pieces that hold no separator. */
  lemma {:induction false} SplitJoin(parts: seq<string>, sep: char)
    requires |parts| >= 1
    requires forall i :: 0 <= i < |parts| ==> sep !in parts[i]
    ensures Split(Join(parts, sep), sep) == parts
  {
    if |parts| == 1 {
      SplitNoSep(parts[0], sep);
    } else {
      SplitJoin(parts[1..], sep);
      SplitPrefix(parts[0], Join(parts[1..], sep), sep);
      assert [parts[0]] + parts[1..] == parts;
    }
  }

  lemma {:induction false} SplitNoSep(s: string, sep: char)
    requires sep !in s
    ensures Split(s, sep) == [s]
  {
    if s != [] {
      SplitNoSep(s[1..], sep);
      assert [s[0]] + s[1..] == s;
    }
  }

  lemma {:induction false} SplitPrefix(w: string, t: string, sep: char)
    requires sep !in w
    ensures Split(w + [sep] + t, sep) == [w] + Split(t, sep)
  {
    if w == [] {
      assert w + [sep] + t == [sep] + t;
      assert ([sep] + t)[1..] == t;
    } else {
      assert (w + [sep] + t)[1..] == w[1..] + [sep] + t;
      SplitPrefix(w[1..], t, sep);
      assert [w[0]] + w[1..] == w;
    }
  }

  // ---------------------------------------------------------------------
  // s.split(None): maximal runs of non-whitespace, empty strings discarded

  function Flatten(ws: seq<string>): string {
    if ws == [] then [] else ws[0] + Flatten(ws[1..])
  }

  function RemoveSpaces(s: string): (r: string)
    ensures NoSpace(r)
  {
    if s == [] then [] else (if IsSpace(s[0]) then [] else [s[0]]) + RemoveSpaces(s[1..])
  }

  /** Length of the leading run of non-whitespace characters. */
  function WordLength(s: string): (n: nat)
    ensures n <= |s| && NoSpace(s[..n])
    ensures n < |s| ==> IsSpace(s[n])
  {
    if s == [] || IsSpace(s[0]) then 0 else 1 + WordLength(s[1..])
  }

  /** `s.split()`: every piece is a non-empty run of non-whitespace characters,
      and together the pieces hold exactly the non-whitespace characters of `s`,
      in order. */
  function Words(s: string): (ws: seq<string>)
    ensures forall i :: 0 <= i < |ws| ==> ws[i] != [] && NoSpace(ws[i])
    ensures Flatten(ws) == RemoveSpaces(s)
    decreases |s|
  {
    if s == [] then []
    else if IsSpace(s[0]) then Words(s[1..])
    else
      var n := WordLength(s);
      RemoveSpacesOfWord(s, n);
      [s[..n]] + Words(s[n..])
  }

  /** A run of non-whitespace followed by the end or by whitespace is one
      word long. */
  lemma {:induction false} WordLengthOf(w: string, t: string)
    requires NoSpace(w) && (t == [] || IsSpace(t[0]))
    ensures WordLength(w + t) == |w|
  {
    if w != [] {
      assert (w + t)[1..] == w[1..] + t;
      WordLengthOf(w[1..], t);
    }
  }

  /** Leading whitespace is skipped. */
  lemma {:induction false} WordsAfterSpace(sp: string, t: string)
    requires AllSpace(sp)
    ensures Words(sp + t) == Words(t)
  {
    if sp != [] {
      assert (sp + t)[1..] == sp[1..] + t;
      WordsAfterSpace(sp[1..], t);
    } else {
      assert sp + t == t;
    }
  }

  /** `split()` of words joined by single spaces gives the words back: each
      word of the result is a maximal run between whitespace. */
  lemma {:induction false} WordsJoin(ws: seq<string>)
    requires |ws| >= 1
    requires forall i :: 0 <= i < |ws| ==> ws[i] != [] && NoSpace(ws[i])
    ensures Words(Join(ws, ' ')) == ws
  {
    var s := Join(ws, ' ');
    var w := ws[0];
    if |ws| == 1 {
      WordLengthOf(w, []);
      assert w + [] == w;
      assert s[..|w|] == w && s[|w|..] == [];
    } else {
      var t := Join(ws[1..], ' ');
      assert s == w + ([' '] + t);
      WordLengthOf(w, [' '] + t);
      assert s[0] == w[0];
      assert s[..|w|] == w && s[|w|..] == [' '] + t;
      WordsAfterSpace([' '], t);
      WordsJoin(ws[1..]);
      assert [w] + ws[1..] == ws;
    }
  }

  lemma {:induction false} RemoveSpacesOfWord(s: string, n: nat)
    requires n <= |s| && NoSpace(s[..n])
    ensures RemoveSpaces(s) == s[..n] + RemoveSpaces(s[n..])
  {
    if n > 0 {
      assert s[..n][0] == s[0];
      assert s[1..][..n - 1] == s[..n][1..];
      RemoveSpacesOfWord(s[1..], n - 1);
      assert s[1..][n - 1..] == s[n..];
      assert [s[0]] + s[..n][1..] == s[..n];
    }
  }

  // ---------------------------------------------------------------------
  // s.rpartition(sep)[2]

  /** `s.rpartition(sep)[2]`: the suffix of `s` after its last `sep`, or all of
      `s` when `sep` does not occur. */
  function AfterLast(s: string, sep: char): (r: string)
    ensures |r| <= |s| && r == s[|s| - |r|..]
    ensures sep !in r
    ensures |r| < |s| ==> s[|s| - |r| - 1] == sep
    ensures sep !in s ==> r == s
  {
    if s == [] then []
    else if s[|s| - 1] == sep then []
    else
      var r := AfterLast(s[..|s| - 1], sep);
      assert s[..|s| - 1][|s| - 1 - |r|..] + [s[|s| - 1]] == s[|s| - 1 - |r|..];
      r + [s[|s| - 1]]
  }

  /** What follows the last separator is the part after it when the
      separator does not occur there. */
  lemma {:induction false} AfterLastAppend(pre: string, sep: char, post: string)
    requires sep !in post
    ensures AfterLast(pre + [sep] + post, sep) == post
  {
    var s := pre + [sep] + post;
    if post != [] {
      var init, last := post[..|post| - 1], post[|post| - 1];
      assert s[..|s| - 1] == pre + [sep] + init;
      assert s[|s| - 1] == last && last != sep;
      assert sep !in init by {
        assert forall c :: c in init ==> c in post;
      }
      AfterLastAppend(pre, sep, init);
      assert AfterLast(s, sep) == AfterLast(s[..|s| - 1], sep) + [last];
      assert init + [last] == post;
    } else {
      assert s[|s| - 1] == sep;
    }
  }

  // ---------------------------------------------------------------------
  // s.strip()

  function TrimStart(s: string): (r: string)
    ensures |r| <= |s| && r == s[|s| - |r|..]
    ensures AllSpace(s[..|s| - |r|])
    ensures r == [] || !IsSpace(r[0])
  {
    if s == [] || !IsSpace(s[0]) then s
    else
      var r := TrimStart(s[1..]);
      assert s[..|s| - |r|] == [s[0]] + s[1..][..|s| - 1 - |r|];
      r
  }

  function TrimEnd(s: string): (r: string)
    ensures |r| <= |s| && r == s[..|r|]
    ensures AllSpace(s[|r|..])
    ensures r == [] || !IsSpace(r[|r| - 1])
  {
    if s == [] || !IsSpace(s[|s| - 1]) then s
    else
      var r := TrimEnd(s[..|s| - 1]);
      assert s[|r|..] == s[..|s| - 1][|r|..] + [s[|s| - 1]];
      r
  }

  /** `s.strip()`: an infix `s[i..i+|r|]` of `s` with only whitespace cut
      away on both sides and no whitespace left at either end. */
  function Strip(s: string): (r: string)
    ensures |r| <= |s|
    ensures r == [] || (!IsSpace(r[0]) && !IsSpace(r[|r| - 1]))
  {
    TrimEnd(TrimStart(s))
  }

  lemma StripIsInfix(s: string) returns (i: nat)
    ensures i + |Strip(s)| <= |s|
    ensures Strip(s) == s[i..i + |Strip(s)|]
    ensures AllSpace(s[..i]) && AllSpace(s[i + |Strip(s)|..])
  {
    var t := TrimStart(s);
    var r := TrimEnd(t);
    i := |s| - |t|;
    SliceOfSuffix(s, i, |r|);
  }

  /** A character missing from a text is missing from both sides of any cut. */
  lemma NotInSplit(s: string, c: char, k: nat)
    requires c !in s && k <= |s|
    ensures c !in s[..k] && c !in s[k..]
  {
    assert s == s[..k] + s[k..];
  }

  /** A prefix of a suffix is an infix, and what follows it is a suffix. */
  lemma SliceOfSuffix(s: string, i: nat, k: nat)
    requires i + k <= |s|
    ensures s[i..][..k] == s[i..i + k] && s[i..][k..] == s[i + k..]
  {
  }

  /** Stripping a whitespace-free text followed by whitespace gives the text. */
  lemma StripPadded(v: string, pad: string)
    requires NoSpace(v) && AllSpace(pad)
    ensures Strip(v + pad) == v
  {
    if v == [] {
      assert v + pad == pad;
      TrimStartAllSpace(pad);
    }
    TrimEndPadded(v, pad);
  }

  lemma {:induction false} TrimStartAllSpace(s: string)
    requires AllSpace(s)
    ensures TrimStart(s) == []
  {
    if s != [] {
      TrimStartAllSpace(s[1..]);
    }
  }

  lemma {:induction false} TrimEndPadded(v: string, pad: string)
    requires NoSpace(v) && AllSpace(pad)
    ensures TrimEnd(v + pad) == v
  {
    if pad == [] {
      assert v + pad == v;
    } else {
      var s := v + pad;
      var init := pad[..|pad| - 1];
      assert s[..|s| - 1] == v + init;
      TrimEndPadded(v, init);
    }
  }

  /** Stripping adds no character. */
  lemma StripKeepsOut(s: string, c: char)
    requires c !in s
    ensures c !in Strip(s)
  {
    var i := StripIsInfix(s);
    assert forall x :: x in s[i..i + |Strip(s)|] ==> x in s;
  }

  // ---------------------------------------------------------------------
  // s.replace(c, '')

  /** `s.replace(c, '')`: every `c` is gone; `WithoutCount` adds that every
      other character is kept as often as it occurs, `WithoutAppend` that the
      order is kept. */
  function Without(s: string, c: char): (r: string)
    ensures c !in r
    ensures c !in s ==> r == s
  {
    if s == [] then []
    else
      var rest := Without(s[1..], c);
      assert c !in s ==> s == [s[0]] + s[1..];
      if s[0] == c then rest else [s[0]] + rest
  }

  /** Only `c` is removed, every occurrence of it. */
  lemma {:induction false} WithoutCount(s: string, c: char)
    ensures multiset(Without(s, c)) == multiset(s)[c := 0]
  {
    if s != [] {
      WithoutCount(s[1..], c);
      assert s == [s[0]] + s[1..];
    }
  }

  /** On one character: `c` becomes empty, anything else stays. */
  lemma WithoutSingle(x: char, c: char)
    ensures Without([x], c) == if x == c then [] else [x]
  {
    assert [x][1..] == [];
  }

  /** Removing a character distributes over concatenation. */
  lemma {:induction false} WithoutAppend(a: string, b: string, c: char)
    ensures Without(a + b, c) == Without(a, c) + Without(b, c)
  {
    if a != [] {
      assert (a + b)[1..] == a[1..] + b;
      WithoutAppend(a[1..], b, c);
    } else {
      assert a + b == b;
    }
  }

  /** Removing `c` around one occurrence of `c` after text without it. */
  lemma WithoutAround(a: string, rest: string, c: char)
    requires c !in a
    ensures Without(a + [c] + rest, c) == a + Without(rest, c)
  {
    WithoutAppend(a, [c] + rest, c);
    WithoutAppend([c], rest, c);
    assert [c][1..] == [];
    assert a + [c] + rest == a + ([c] + rest);
  }

  // ---------------------------------------------------------------------
  // s.lower() on ASCII

  predicate IsUpper(c: char) { 'A' <= c <= 'Z' }

  function LowerChar(c: char): char {
    if IsUpper(c) then (c as int + 32) as char else c
  }

  /** `s.lower()`: same length, no upper-case letter left, and every other
      character unchanged. */
  function Lower(s: string): (r: string)
    ensures |r| == |s|
    ensures forall i :: 0 <= i < |s| ==> !IsUpper(r[i])
    ensures forall i :: 0 <= i < |s| && !IsUpper(s[i]) ==> r[i] == s[i]
    ensures forall i :: 0 <= i < |s| && IsUpper(s[i]) ==> r[i] as int == s[i] as int + 32
  {
    seq(|s|, i requires 0 <= i < |s| => LowerChar(s[i]))
  }

  /** Lower-casing brings in no character other than a lower-case letter. */
  lemma LowerKeepsOut(s: string, c: char)
    requires c !in s && !('a' <= c <= 'z')
    ensures c !in Lower(s)
  {
    var r := Lower(s);
    forall i | 0 <= i < |r|
      ensures r[i] != c
    {
      assert s[i] != c;
    }
  }
}
