/** String operations the service applies to CSV fields and query parameters:
    JavaScript's `toLowerCase`, `trim`, `startsWith`, `includes` and `split`,
    stated on `seq<char>`. */
module Strings {

  /** The code points JavaScript's `trim` removes: WhiteSpace and LineTerminator. */
  predicate IsSpace(c: char) {
    || c == ' ' || c == '\t' || c == '\n' || c == '\r'
    || c == '\U{0B}' || c == '\U{0C}' || c == '\U{A0}' || c == '\U{1680}'
    || ('\U{2000}' <= c <= '\U{200A}')
    || c == '\U{2028}' || c == '\U{2029}' || c == '\U{202F}' || c == '\U{205F}'
    || c == '\U{3000}' || c == '\U{FEFF}'
  }

  predicate IsUpper(c: char) { 'A' <= c <= 'Z' }

  function LowerChar(c: char): char {
    if IsUpper(c) then (c as int + 32) as char else c
  }

  /** `toLowerCase`, restricted to the ASCII letters. */
  function Lower(s: string): string {
    seq(|s|, i requires 0 <= i < |s| => LowerChar(s[i]))
  }

  function TrimStart(s: string): string {
    if s != [] && IsSpace(s[0]) then TrimStart(s[1..]) else s
  }

  function TrimEnd(s: string): string {
    if s != [] && IsSpace(s[|s| - 1]) then TrimEnd(s[..|s| - 1]) else s
  }

  /** `trim`: the input without its leading and trailing white space. */
  function Trim(s: string): string {
    TrimEnd(TrimStart(s))
  }

  /** `startsWith` */
  predicate StartsWith(s: string, prefix: string) {
    |prefix| <= |s| && s[..|prefix|] == prefix
  }

  /** `t` occurs in `s` starting at offset `i`. */
  predicate OccursAt(s: string, t: string, i: int) {
    0 <= i <= |s| - |t| && s[i..i + |t|] == t
  }

  /** `includes`: `t` occurs somewhere in `s`. */
  predicate Contains(s: string, t: string)
    decreases |s|
  {
    StartsWith(s, t) || (s != [] && Contains(s[1..], t))
  }

  /** `split` on any of the characters in `delims` (a one-character string
      separator, or a character class such as /[,;]/). */
  function Split(s: string, delims: set<char>): seq<string>
    decreases |s|
  {
    if s == [] then [[]]
    else
      var rest := Split(s[1..], delims);
      if s[0] in delims then [[]] + rest
      else [[s[0]] + rest[0]] + rest[1..]
  }

  /** The delimiters of `s`, in order. */
  function Delimiters(s: string, delims: set<char>): string {
    if s == [] then []
    else (if s[0] in delims then [s[0]] else []) + Delimiters(s[1..], delims)
  }

  /** Puts the pieces back together with one separator between neighbours. */
  function Interleave(pieces: seq<string>, seps: string): string
    requires |pieces| == |seps| + 1
  {
    if seps == [] then pieces[0]
    else pieces[0] + [seps[0]] + Interleave(pieces[1..], seps[1..])
  }

  // ---------------------------------------------------------------------
  // Lower

  lemma LowerIdempotent(s: string)
    ensures Lower(Lower(s)) == Lower(s)
  {
  }

  /** Only the empty string lower-cases to the empty string, so testing the
      lower-cased parameter for emptiness tests the parameter itself. */
  lemma LowerEmpty(s: string)
    ensures Lower(s) == [] <==> s == []
  {
    if s != [] { assert Lower(s)[0] == LowerChar(s[0]); }
  }

  lemma LowerAppend(a: string, b: string)
    ensures Lower(a + b) == Lower(a) + Lower(b)
  {
  }

  lemma LowerPrefix(s: string, k: nat)
    requires k <= |s|
    ensures Lower(s[..k]) == Lower(s)[..k] && Lower(s[k..]) == Lower(s)[k..]
  {
  }

  // ---------------------------------------------------------------------
  // Trim

  lemma {:induction false} TrimStartShape(s: string)
    ensures var r := TrimStart(s);
      |r| <= |s| && r == s[|s| - |r|..] && (r == [] || !IsSpace(r[0]))
      && forall i :: 0 <= i < |s| - |r| ==> IsSpace(s[i])
    decreases |s|
  {
    if s != [] && IsSpace(s[0]) {
      TrimStartShape(s[1..]);
    }
  }

  lemma {:induction false} TrimEndShape(s: string)
    ensures var r := TrimEnd(s);
      |r| <= |s| && r == s[..|r|] && (r == [] || !IsSpace(r[|r| - 1]))
      && forall i :: |r| <= i < |s| ==> IsSpace(s[i])
    decreases |s|
  {
    if s != [] && IsSpace(s[|s| - 1]) {
      TrimEndShape(s[..|s| - 1]);
    }
  }

  lemma TrimEndKeepsStart(s: string)
    requires s == [] || !IsSpace(s[0])
    ensures var r := TrimEnd(s); r == [] || !IsSpace(r[0])
  {
    TrimEndShape(s);
    var r := TrimEnd(s);
    if r != [] { assert r[0] == s[0]; }
  }

  /** The trimmed string has no white space at either end, sits inside the
      original, and everything cut off was white space. */
  lemma TrimShape(s: string)
    ensures var r := Trim(s);
      (r == [] || (!IsSpace(r[0]) && !IsSpace(r[|r| - 1])))
      && exists k :: OccursAt(s, r, k)
  {
    var a := TrimStart(s);
    TrimStartShape(s);
    TrimEndShape(a);
    TrimEndKeepsStart(a);
    var r := TrimEnd(a);
    var k := |s| - |a|;
    assert s[k..k + |r|] == a[..|r|];
    assert OccursAt(s, r, k);
  }

  lemma {:induction false} TrimStartFixed(s: string)
    requires s == [] || !IsSpace(s[0])
    ensures TrimStart(s) == s
  {
  }

  lemma {:induction false} TrimEndFixed(s: string)
    requires s == [] || !IsSpace(s[|s| - 1])
    ensures TrimEnd(s) == s
  {
  }

  lemma TrimIdempotent(s: string)
    ensures Trim(Trim(s)) == Trim(s)
  {
    var r := Trim(s);
    TrimShape(s);
    TrimStartFixed(r);
    TrimEndFixed(r);
  }

  /** A string with white space at either end is not a trimmed string. */
  lemma TrimmedHasNoOuterSpace(s: string)
    requires Trim(s) == s
    ensures s == [] || (!IsSpace(s[0]) && !IsSpace(s[|s| - 1]))
  {
    TrimShape(s);
  }

  predicate AllSpace(s: string) {
    forall i :: 0 <= i < |s| ==> IsSpace(s[i])
  }

  /** Trimming leaves nothing exactly when the string is all white space. */
  lemma TrimEmpty(s: string)
    ensures Trim(s) == [] <==> AllSpace(s)
  {
    var a := TrimStart(s);
    TrimStartShape(s);
    TrimEndShape(a);
  }

  lemma LowerCharSpace(c: char)
    ensures IsSpace(LowerChar(c)) <==> IsSpace(c)
  {
  }

  lemma {:induction false} TrimStartLower(s: string)
    ensures TrimStart(Lower(s)) == Lower(TrimStart(s))
    decreases |s|
  {
    if s != [] {
      LowerCharSpace(s[0]);
      assert Lower(s)[1..] == Lower(s[1..]);
      if IsSpace(s[0]) {
        TrimStartLower(s[1..]);
      }
    }
  }

  lemma {:induction false} TrimEndLower(s: string)
    ensures TrimEnd(Lower(s)) == Lower(TrimEnd(s))
    decreases |s|
  {
    if s != [] {
      var n := |s| - 1;
      LowerCharSpace(s[n]);
      assert Lower(s)[..n] == Lower(s[..n]);
      if IsSpace(s[n]) {
        TrimEndLower(s[..n]);
      }
    }
  }

  /** ASCII lower-casing never turns white space into anything else, so the
      two normalisation orders the service uses (`trim().toLowerCase()` for
      drug names, `toLowerCase().trim()` for everything else) agree. */
  lemma TrimLowerCommute(s: string)
    ensures Trim(Lower(s)) == Lower(Trim(s))
  {
    TrimStartLower(s);
    TrimEndLower(TrimStart(s));
  }

  // ---------------------------------------------------------------------
  // Contains

  /** `includes` holds exactly when `t` occurs at some offset of `s`. */
  lemma {:induction false} ContainsAt(s: string, t: string)
    ensures Contains(s, t) <==> exists i :: OccursAt(s, t, i)
    decreases |s|
  {
    if StartsWith(s, t) {
      assert OccursAt(s, t, 0);
    } else if s != [] {
      ContainsAt(s[1..], t);
      if Contains(s[1..], t) {
        var i :| OccursAt(s[1..], t, i);
        assert s[i + 1..i + 1 + |t|] == t;
        assert OccursAt(s, t, i + 1);
      }
      if i :| OccursAt(s, t, i) {
        assert i != 0;
        assert s[1..][i - 1..i - 1 + |t|] == t;
        assert OccursAt(s[1..], t, i - 1);
      }
    }
  }

  // ---------------------------------------------------------------------
  // Split

  /** `split` yields one more piece than there are delimiters, no piece holds
      a delimiter, and putting the delimiters back between the pieces gives
      the input again. */
  lemma {:induction false} SplitRoundTrip(s: string, delims: set<char>)
    ensures var pieces := Split(s, delims);
      |pieces| == |Delimiters(s, delims)| + 1
      && (forall p, c :: p in pieces && c in p ==> c !in delims)
      && Interleave(pieces, Delimiters(s, delims)) == s
    decreases |s|
  {
    if s != [] {
      SplitRoundTrip(s[1..], delims);
      var rest := Split(s[1..], delims);
      var seps := Delimiters(s[1..], delims);
      if s[0] in delims {
        assert Split(s, delims) == [[]] + rest;
        assert Delimiters(s, delims) == [s[0]] + seps;
        assert ([[]] + rest)[1..] == rest;
      } else {
        var pieces := Split(s, delims);
        assert pieces == [[s[0]] + rest[0]] + rest[1..];
        assert Delimiters(s, delims) == seps;
        forall p, c | p in pieces && c in p ensures c !in delims {
          if p == pieces[0] {
            assert p == [s[0]] + rest[0];
          } else {
            assert p in rest;
          }
        }
        assert pieces[1..] == rest[1..];
        InterleaveCons(s[0], rest, pieces, seps);
      }
    }
  }

  /** Putting a character in front of the first piece puts it in front of
      the joined string. */
  lemma InterleaveCons(c: char, pieces: seq<string>, longer: seq<string>, seps: string)
    requires |pieces| == |seps| + 1 && |longer| == |pieces|
    requires longer[0] == [c] + pieces[0] && longer[1..] == pieces[1..]
    ensures Interleave(longer, seps) == [c] + Interleave(pieces, seps)
  {
    if seps != [] {
      var rest := Interleave(pieces[1..], seps[1..]);
      assert ([c] + pieces[0]) + [seps[0]] + rest == [c] + (pieces[0] + [seps[0]] + rest);
    }
  }

  /** The number of pieces is one more than the number of delimiters, so a
      string yields two or more pieces exactly when it holds a delimiter. */
  lemma {:induction false} SplitCount(s: string, delims: set<char>)
    ensures |Split(s, delims)| >= 2 <==> exists c :: c in s && c in delims
    decreases |s|
  {
    SplitRoundTrip(s, delims);
    DelimitersPresent(s, delims);
  }

  lemma {:induction false} DelimitersPresent(s: string, delims: set<char>)
    ensures Delimiters(s, delims) != [] <==> exists c :: c in s && c in delims
    decreases |s|
  {
    if s != [] {
      DelimitersPresent(s[1..], delims);
      if exists c :: c in s[1..] && c in delims {
        var c :| c in s[1..] && c in delims;
        assert c in s;
      }
      if c :| c in s && c in delims {
        if s[0] !in delims {
          var i :| 0 <= i < |s| && s[i] == c;
          assert i > 0 && s[1..][i - 1] == c;
        }
      }
    }
  }
}
