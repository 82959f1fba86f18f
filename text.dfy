/** The Python `str` operations the model relies on: `upper`, `strip`,
    `split(sep)`, `replace(c, "")` and the ordering `<` on strings.
    Strings are sequences of Unicode code points, as in Python 3. */
module Text {

  /** Python's `str.isspace` for one code point. */
  predicate IsSpace(c: char) {
    c == ' ' || ('\t' <= c <= '\r') || ('\U{1C}' <= c <= '\U{1F}') ||
    c == '\U{85}' || c == '\U{A0}' || c == '\U{1680}' ||
    ('\U{2000}' <= c <= '\U{200A}') || c == '\U{2028}' || c == '\U{2029}' ||
    c == '\U{202F}' || c == '\U{205F}' || c == '\U{3000}'
  }

  predicate AllSpace(s: string) {
    forall k :: 0 <= k < |s| ==> IsSpace(s[k])
  }

  /** No whitespace at either end: a fixed point of `strip`. */
  predicate IsStripped(s: string) {
    |s| == 0 || (!IsSpace(s[0]) && !IsSpace(s[|s| - 1]))
  }

  // ---------------------------------------------------------------------
  // upper

  predicate IsLower(c: char) {
    'a' <= c <= 'z'
  }

  /** Case mapping of `str.upper`, restricted to the ASCII letters. */
  function UpperChar(c: char): (u: char)
    ensures !IsLower(u)
    ensures IsSpace(u) <==> IsSpace(c)
    ensures !IsLower(c) ==> u == c
    ensures IsLower(c) ==> 'A' <= u <= 'Z'
  {
    if IsLower(c) then (c as int - 32) as char else c
  }

  /** No lower-case letter left: what `upper` produces. */
  predicate IsUpper(s: string) {
    forall k :: 0 <= k < |s| ==> !IsLower(s[k])
  }

  function Upper(s: string): (r: string)
    ensures |r| == |s| && IsUpper(r)
    ensures forall k :: 0 <= k < |s| ==> r[k] == UpperChar(s[k])
  {
    seq(|s|, k requires 0 <= k < |s| => UpperChar(s[k]))
  }

  /** `upper` changes nothing in a string that is already upper case. */
  lemma UpperIdempotent(s: string)
    requires IsUpper(s)
    ensures Upper(s) == s
  {
  }

  /** `upper` keeps whitespace where it was, so a stripped string stays stripped. */
  lemma UpperKeepsStripped(s: string)
    requires IsStripped(s)
    ensures IsStripped(Upper(s))
  {
  }

  /** `upper` distributes over concatenation. */
  lemma UpperConcat(a: string, b: string)
    ensures Upper(a + b) == Upper(a) + Upper(b)
  {
    assert forall k :: 0 <= k < |a + b| ==> Upper(a + b)[k] == (Upper(a) + Upper(b))[k];
  }

  /** Every infix of an upper-case string is upper case. */
  lemma InfixOfUpper(s: string, i: nat, j: nat)
    requires IsUpper(s) && i <= j <= |s|
    ensures IsUpper(s[i..j])
  {
    forall k | 0 <= k < j - i ensures !IsLower(s[i..j][k]) {
      assert s[i..j][k] == s[i + k];
    }
  }

  // ---------------------------------------------------------------------
  // strip

  /** Number of leading whitespace code points. */
  function LeadingSpace(s: string): (i: nat)
    ensures i <= |s| && AllSpace(s[..i])
    ensures i < |s| ==> !IsSpace(s[i])
  {
    if |s| == 0 || !IsSpace(s[0]) then 0
    else
      var i := 1 + LeadingSpace(s[1..]);
      assert forall k :: 1 <= k < i ==> s[k] == s[1..][k - 1];
      i
  }

  /** Length of `s` once trailing whitespace is cut off. */
  function TrailingStart(s: string): (j: nat)
    ensures j <= |s| && AllSpace(s[j..])
    ensures j > 0 ==> !IsSpace(s[j - 1])
  {
    if |s| == 0 || !IsSpace(s[|s| - 1]) then |s|
    else
      var j := TrailingStart(s[..|s| - 1]);
      assert forall k :: j <= k < |s| - 1 ==> s[k] == s[..|s| - 1][k];
      j
  }

  /** Python's `str.strip()`: cut whitespace off both ends and nothing else. */
  function Strip(s: string): (r: string)
    ensures IsStripped(r) && |r| <= |s|
    ensures exists i :: 0 <= i <= |s| - |r| && r == s[i..i + |r|] &&
                        AllSpace(s[..i]) && AllSpace(s[i + |r|..])
  {
    var i, j := LeadingSpace(s), TrailingStart(s);
    if i < j then
      assert s[i..j][0] == s[i] && s[i..j][j - i - 1] == s[j - 1];
      s[i..j]
    else
      // a non-space before `j` would end the leading run before `j`
      PrefixSpaces(s, i);
      assert j == 0;
      assert s[j..] == s;
      assert s[..|s|] == s && s[|s|..] == "";
      ""
  }

  /** `strip` only removes whitespace: every other character stays. */
  lemma StripKeeps(s: string, k: nat)
    requires k < |s| && !IsSpace(s[k])
    ensures s[k] in Strip(s)
  {
    var i, j := LeadingSpace(s), TrailingStart(s);
    PrefixSpaces(s, i);
    SuffixSpaces(s, j);
    assert i <= k < j;
    assert Strip(s) == s[i..j];
    assert s[i..j][k - i] == s[k];
  }

  lemma PrefixSpaces(s: string, i: nat)
    requires i <= |s| && AllSpace(s[..i])
    ensures forall m :: 0 <= m < i ==> IsSpace(s[m])
  {
    forall m | 0 <= m < i ensures IsSpace(s[m]) { assert s[..i][m] == s[m]; }
  }

  lemma SuffixSpaces(s: string, j: nat)
    requires j <= |s| && AllSpace(s[j..])
    ensures forall m :: j <= m < |s| ==> IsSpace(s[m])
  {
    forall m | j <= m < |s| ensures IsSpace(s[m]) { assert s[j..][m - j] == s[m]; }
  }

  /** `strip` adds nothing: every character it keeps was there. */
  lemma StripInfix(s: string)
    ensures forall x :: x in Strip(s) ==> x in s
  {
    var r := Strip(s);
    var i :| 0 <= i <= |s| - |r| && r == s[i..i + |r|] && AllSpace(s[..i]) && AllSpace(s[i + |r|..]);
    forall x | x in r ensures x in s {
      var k :| 0 <= k < |r| && r[k] == x;
      assert s[i + k] == x;
    }
  }

  /** `strip` leaves an already stripped string alone. */
  lemma StripStripped(s: string)
    requires IsStripped(s)
    ensures Strip(s) == s
  {
    if |s| > 0 {
      assert LeadingSpace(s) == 0;
      assert TrailingStart(s) == |s|;
    }
  }

  /** One leading space in front of a stripped, non-empty string is all
      that `strip` removes. */
  lemma StripOneSpace(x: string)
    requires IsStripped(x) && |x| >= 1
    ensures Strip(" " + x) == x
  {
    var s := " " + x;
    assert s[1..] == x;
    assert LeadingSpace(s[1..]) == 0;
    assert LeadingSpace(s) == 1;
    assert TrailingStart(s) == |s|;
  }

  /** The stripped string is an infix of the input, so an upper-case input
      has an upper-case result. */
  lemma StripUpper(s: string)
    requires IsUpper(s)
    ensures IsUpper(Strip(s))
  {
    var r := Strip(s);
    var i :| 0 <= i <= |s| - |r| && r == s[i..i + |r|] &&
              AllSpace(s[..i]) && AllSpace(s[i + |r|..]);
    InfixOfUpper(s, i, i + |r|);
  }

  // ---------------------------------------------------------------------
  // split and join

  /** Python's `s.split(sep)` for a one-character separator: the pieces
      between separators, empty ones included; never an empty list. */
  function Split(s: string, sep: char): (parts: seq<string>)
    ensures |parts| >= 1
    ensures forall p :: p in parts ==> sep !in p
  {
    if |s| == 0 then [""]
    else
      var rest := Split(s[1..], sep);
      if s[0] == sep then [""] + rest
      else [[s[0]] + rest[0]] + rest[1..]
  }

  /** Python's `sep.join(parts)`. */
  function Join(parts: seq<string>, sep: char): string {
    if |parts| == 0 then ""
    else if |parts| == 1 then parts[0]
    else parts[0] + [sep] + Join(parts[1..], sep)
  }

  /** Joining the pieces of a split with its separator gives back the string. */
  lemma {:induction false} JoinSplit(s: string, sep: char)
    ensures Join(Split(s, sep), sep) == s
  {
    if |s| > 0 {
      var rest := Split(s[1..], sep);
      JoinSplit(s[1..], sep);
      if s[0] != sep {
        if |rest| == 1 {
          assert Split(s, sep) == [[s[0]] + rest[0]];
        } else {
          assert Split(s, sep)[1..] == rest[1..];
          assert Join(Split(s, sep), sep) == [s[0]] + rest[0] + [sep] + Join(rest[1..], sep);
        }
      }
    }
  }

  /** Every character of a join is the separator or a character of a piece;
      every character of the first piece is in the join. */
  lemma {:induction false} JoinChars(parts: seq<string>, sep: char)
    ensures forall c :: c in Join(parts, sep) ==> c == sep || exists p :: p in parts && c in p
    ensures |parts| >= 1 ==> forall c :: c in parts[0] ==> c in Join(parts, sep)
  {
    if |parts| > 1 {
      JoinChars(parts[1..], sep);
      var rest := Join(parts[1..], sep);
      assert Join(parts, sep) == parts[0] + [sep] + rest;
      forall c | c in Join(parts, sep) ensures c == sep || exists p :: p in parts && c in p {
        if c in rest && c != sep {
          var p :| p in parts[1..] && c in p;
          assert p in parts;
        } else if c in parts[0] {
          assert parts[0] in parts;
        }
      }
    } else if |parts| == 1 {
      assert parts[0] in parts;
    }
  }

  /** A first character other than the separator starts the first part. */
  lemma SplitFirst(s: string, sep: char)
    requires |s| > 0 && s[0] != sep
    ensures Split(s, sep) == [[s[0]] + Split(s[1..], sep)[0]] + Split(s[1..], sep)[1..]
  {
  }

  /** Splitting a string that starts with a separator-free piece. */
  lemma {:induction false} SplitAfterPiece(p: string, t: string, sep: char)
    requires sep !in p
    ensures Split(p + t, sep) == [p + Split(t, sep)[0]] + Split(t, sep)[1..]
  {
    if |p| > 0 {
      assert p[0] in p && sep !in p[1..];
      SplitAfterPiece(p[1..], t, sep);
      assert (p + t)[0] == p[0] && (p + t)[1..] == p[1..] + t;
      SplitFirst(p + t, sep);
      var parts := Split(t, sep);
      assert [p[0]] + (p[1..] + parts[0]) == p + parts[0];
    } else {
      var parts := Split(t, sep);
      assert p + t == t && p + parts[0] == parts[0];
      assert parts == [parts[0]] + parts[1..];
    }
  }

  /** Splitting the join of separator-free pieces gives back the pieces. */
  lemma {:induction false} SplitJoin(parts: seq<string>, sep: char)
    requires |parts| >= 1
    requires forall p :: p in parts ==> sep !in p
    ensures Split(Join(parts, sep), sep) == parts
  {
    if |parts| == 1 {
      SplitAfterPiece(parts[0], "", sep);
      assert parts[0] + "" == parts[0];
      assert Split("", sep) == [""];
      assert Join(parts, sep) == parts[0];
      assert parts == [parts[0]];
    } else {
      var tail := Join(parts[1..], sep);
      SplitJoin(parts[1..], sep);
      SplitAfterPiece(parts[0], [sep] + tail, sep);
      assert parts[0] + [sep] + tail == parts[0] + ([sep] + tail);
      assert ([sep] + tail)[1..] == tail;
      assert Split([sep] + tail, sep) == [""] + Split(tail, sep);
      assert parts[0] + "" == parts[0];
      assert Join(parts, sep) == parts[0] + ([sep] + tail);
      assert parts == [parts[0]] + parts[1..];
    }
  }

  /** Every piece of an upper-case string is upper case. */
  lemma {:induction false} SplitUpper(s: string, sep: char)
    requires IsUpper(s)
    ensures forall p :: p in Split(s, sep) ==> IsUpper(p)
  {
    if |s| > 0 {
      InfixOfUpper(s, 1, |s|);
      SplitUpper(s[1..], sep);
      var rest := Split(s[1..], sep);
      if s[0] != sep {
        var first := [s[0]] + rest[0];
        assert rest[0] in rest;
        assert IsUpper(first) by {
          forall k | 0 <= k < |first| ensures !IsLower(first[k]) {
            if k > 0 { assert first[k] == rest[0][k - 1]; }
          }
        }
        forall p | p in Split(s, sep) ensures IsUpper(p) {
          if p != first { assert p in rest[1..]; }
        }
      }
    }
  }

  /** Joining upper-case pieces with a separator that is not a lower-case
      letter gives an upper-case string. */
  lemma {:induction false} JoinUpper(parts: seq<string>, sep: char)
    requires !IsLower(sep) && forall p :: p in parts ==> IsUpper(p)
    ensures IsUpper(Join(parts, sep))
  {
    if |parts| > 1 {
      JoinUpper(parts[1..], sep);
      assert parts[0] in parts;
      var rest := Join(parts[1..], sep);
      var r := parts[0] + [sep] + rest;
      forall k | 0 <= k < |r| ensures !IsLower(r[k]) {
        if k < |parts[0]| { assert r[k] == parts[0][k]; }
        else if k > |parts[0]| { assert r[k] == rest[k - |parts[0]| - 1]; }
      }
    } else if |parts| == 1 {
      assert parts[0] in parts;
    }
  }

  /** A separator at the very end leaves an empty last piece. */
  lemma {:induction false} SplitTrailingSep(s: string, sep: char)
    ensures Split(s + [sep], sep) == Split(s, sep) + [""]
  {
    if |s| == 0 {
      assert [sep][1..] == "";
    } else {
      SplitTrailingSep(s[1..], sep);
      assert (s + [sep])[0] == s[0] && (s + [sep])[1..] == s[1..] + [sep];
      var rest := Split(s[1..], sep);
      if s[0] != sep {
        SplitFirst(s, sep);
        SplitFirst(s + [sep], sep);
        assert (rest + [""])[0] == rest[0];
        assert (rest + [""])[1..] == rest[1..] + [""];
      }
    }
  }

  // ---------------------------------------------------------------------
  // replace(c, "")

  /** Python's `s.replace(c, "")`: every occurrence of `c` removed, the rest
      kept in order. */
  function Delete(s: string, c: char): (r: string)
    ensures |r| <= |s|
    ensures forall x :: x in r <==> x in s && x != c
    ensures multiset(r) == multiset(s)[c := 0]
  {
    KeptCounts(s, c);
    Kept(s, c)
  }

  /** The characters of `s` other than `c`, read from the left. */
  function Kept(s: string, c: char): string {
    if |s| == 0 then "" else (if s[0] == c then "" else [s[0]]) + Kept(s[1..], c)
  }

  lemma {:induction false} KeptCounts(s: string, c: char)
    ensures |Kept(s, c)| <= |s|
    ensures multiset(Kept(s, c)) == multiset(s)[c := 0]
    ensures forall x :: x in Kept(s, c) <==> x in s && x != c
  {
    if |s| > 0 {
      assert s == [s[0]] + s[1..];
      KeptCounts(s[1..], c);
      assert forall x :: x in s <==> x == s[0] || x in s[1..];
    }
  }

  /** One character is removed when it is `c` and kept otherwise. */
  lemma DeleteChar(x: char, c: char)
    ensures Delete([x], c) == if x == c then "" else [x]
  {
    assert [x][1..] == "";
    assert Kept([x], c) == (if x == c then "" else [x]) + Kept("", c);
  }

  /** Removal works piece by piece: it distributes over concatenation, so
      with `DeleteChar` it keeps every other character, in order. */
  lemma DeleteConcat(a: string, b: string, c: char)
    ensures Delete(a + b, c) == Delete(a, c) + Delete(b, c)
  {
    KeptConcat(a, b, c);
  }

  lemma {:induction false} KeptConcat(a: string, b: string, c: char)
    ensures Kept(a + b, c) == Kept(a, c) + Kept(b, c)
  {
    if |a| == 0 {
      assert a + b == b;
    } else {
      var t := a[1..];
      var head := if a[0] == c then "" else [a[0]];
      KeptConcat(t, b, c);
      assert (a + b)[1..] == t + b;
      assert (a + b)[0] == a[0];
      var kt, kb := Kept(t, c), Kept(b, c);
      assert Kept(a + b, c) == head + (kt + kb);
      assert head + (kt + kb) == (head + kt) + kb;
    }
  }

  /** Removing a character that does not occur changes nothing. */
  lemma DeleteAbsent(s: string, c: char)
    requires c !in s
    ensures Delete(s, c) == s
  {
    KeptAbsent(s, c);
  }

  lemma {:induction false} KeptAbsent(s: string, c: char)
    requires c !in s
    ensures Kept(s, c) == s
  {
    if |s| > 0 {
      assert s[0] != c;
      assert c !in s[1..];
      KeptAbsent(s[1..], c);
      assert s == [s[0]] + s[1..];
    }
  }

  // ---------------------------------------------------------------------
  // ordering

  /** Python's `a < b` on strings: lexicographic by code point, a proper
      prefix coming first. */
  predicate Less(a: string, b: string): (r: bool)
    ensures r ==> a != b
    ensures |a| < |b| && a == b[..|a|] ==> r
    decreases |a|
  {
    if |a| == 0 then |b| > 0
    else if |b| == 0 then false
    else if a[0] != b[0] then a[0] < b[0]
    else Less(a[1..], b[1..])
  }

  lemma {:induction false} LessIrreflexive(a: string)
    ensures !Less(a, a)
  {
    if |a| > 0 { LessIrreflexive(a[1..]); }
  }

  lemma {:induction false} LessTransitive(a: string, b: string, c: string)
    requires Less(a, b) && Less(b, c)
    ensures Less(a, c)
  {
    if |a| > 0 && a[0] == b[0] && b[0] == c[0] {
      LessTransitive(a[1..], b[1..], c[1..]);
    }
  }

  lemma {:induction false} LessTotal(a: string, b: string)
    requires a != b
    ensures Less(a, b) || Less(b, a)
  {
    if |a| > 0 && |b| > 0 && a[0] == b[0] {
      assert a == [a[0]] + a[1..] && b == [b[0]] + b[1..];
      LessTotal(a[1..], b[1..]);
    }
  }
}
