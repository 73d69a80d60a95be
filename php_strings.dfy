/** The few PHP string built-ins the plugin requirement checker relies on:
    trim(), empty() on strings, strtolower(), ucfirst(), explode() and implode(). */
module PhpStrings {

  /** The characters trim() strips when no character list is given:
      space, tab, line feed, carriage return, NUL and vertical tab. */
  predicate IsTrimChar(c: char) {
    c == ' ' || c == '\t' || c == '\n' || c == '\r' || c == '\0' || c == '\U{0B}'
  }

  /** A string that neither starts nor ends with a character trim() strips. */
  predicate IsTrimmed(s: string) {
    s == [] || (!IsTrimChar(s[0]) && !IsTrimChar(s[|s| - 1]))
  }

  /** ltrim(): drop the leading characters trim() strips. */
  function TrimLeft(s: string): (r: string)
    ensures |r| <= |s|
    ensures r == [] || !IsTrimChar(r[0])
    decreases |s|
  {
    if s != [] && IsTrimChar(s[0]) then TrimLeft(s[1..]) else s
  }

  /** rtrim(): drop the trailing characters trim() strips. */
  function TrimRight(s: string): (r: string)
    ensures |r| <= |s|
    ensures r == [] || !IsTrimChar(r[|r| - 1])
    decreases |s|
  {
    if s != [] && IsTrimChar(s[|s| - 1]) then TrimRight(s[..|s| - 1]) else s
  }

  /** trim(): strip leading and trailing whitespace. */
  function Trim(s: string): (r: string)
    ensures IsTrimmed(r)
    ensures |r| <= |s|
  {
    var l := TrimLeft(s);
    TrimRightKeepsPrefix(l);
    TrimRight(l)
  }

  /** ltrim() removes a prefix made only of stripped characters. */
  lemma {:induction false} TrimLeftKeepsSuffix(s: string)
    ensures var r := TrimLeft(s);
      r == s[|s| - |r|..] && forall k :: 0 <= k < |s| - |r| ==> IsTrimChar(s[k])
    decreases |s|
  {
    if s != [] && IsTrimChar(s[0]) {
      TrimLeftKeepsSuffix(s[1..]);
    }
  }

  /** rtrim() removes a suffix made only of stripped characters. */
  lemma {:induction false} TrimRightKeepsPrefix(s: string)
    ensures var r := TrimRight(s);
      r == s[..|r|] && forall k :: |r| <= k < |s| ==> IsTrimChar(s[k])
    decreases |s|
  {
    if s != [] && IsTrimChar(s[|s| - 1]) {
      TrimRightKeepsPrefix(s[..|s| - 1]);
    }
  }

  /** trim() returns a contiguous part of its input, so it adds no character. */
  lemma TrimIsSlice(s: string)
    ensures var lo := |s| - |TrimLeft(s)|; lo + |Trim(s)| <= |s| && Trim(s) == s[lo..lo + |Trim(s)|]
    ensures forall c :: c in Trim(s) ==> c in s
  {
    var l := TrimLeft(s);
    TrimLeftKeepsSuffix(s);
    TrimRightKeepsPrefix(l);
    var lo := |s| - |l|;
    assert Trim(s) == s[lo..lo + |Trim(s)|];
  }

  /** PHP's empty() on a string: true for "" and, as a numeric quirk, for "0". */
  predicate PhpEmpty(s: string)
    ensures s == [] ==> PhpEmpty(s)
    ensures PhpEmpty(s) ==> |s| <= 1 && IsTrimmed(s) && ',' !in s
  {
    s == "" || s == "0"
  }

  /** strtolower() on one character. */
  function LowerChar(c: char): char {
    if 'A' <= c <= 'Z' then (c as int + 32) as char else c
  }

  /** ucfirst() on an ASCII letter. */
  function UpperChar(c: char): char {
    if 'a' <= c <= 'z' then (c as int - 32) as char else c
  }

  /** strtolower() on the ASCII letters. */
  function ToLower(s: string): (r: string)
    ensures |r| == |s|
  {
    seq(|s|, i requires 0 <= i < |s| => LowerChar(s[i]))
  }

  /** strtolower() turns every ASCII capital into its small letter, keeps
      every other character, and leaves no capital behind. */
  lemma ToLowerMapsCapitals(s: string)
    ensures forall i :: 0 <= i < |s| ==> !('A' <= ToLower(s)[i] <= 'Z')
    ensures forall i :: 0 <= i < |s| && !('A' <= s[i] <= 'Z') ==> ToLower(s)[i] == s[i]
    ensures forall i :: 0 <= i < |s| && 'A' <= s[i] <= 'Z' ==>
      'a' <= ToLower(s)[i] <= 'z' && ToLower(s)[i] as int - s[i] as int == 32
  {
  }

  /** ucfirst(): only the first character may change, and only its case. */
  function Ucfirst(s: string): (r: string)
    ensures |r| == |s|
    ensures s != [] ==> r[1..] == s[1..] && !('a' <= r[0] <= 'z')
    ensures ToLower(r) == ToLower(s)
  {
    if s == [] then s
    else
      var r := [UpperChar(s[0])] + s[1..];
      assert ToLower(r)[0] == ToLower(s)[0];
      assert forall i :: 1 <= i < |s| ==> ToLower(r)[i] == ToLower(s)[i];
      r
  }

  /** strtolower() leaves an already lower-cased string alone. */
  lemma ToLowerIdempotent(s: string)
    ensures ToLower(ToLower(s)) == ToLower(s)
  {
  }

  /** explode(): the pieces of s between occurrences of sep, in order.
      There is always at least one piece; no piece contains sep. */
  function Explode(s: string, sep: char): (r: seq<string>)
    ensures |r| >= 1
    ensures forall p :: p in r ==> sep !in p
    decreases |s|
  {
    if s == [] then [[]]
    else
      var rest := Explode(s[1..], sep);
      if s[0] == sep then [[]] + rest
      else [[s[0]] + rest[0]] + rest[1..]
  }

  /** implode(): the parts joined with glue between consecutive parts. The
      result starts with the first part followed, when there is another, by
      the glue. */
  function Implode(parts: seq<string>, glue: string): (r: string)
    ensures parts == [] ==> r == []
    ensures |parts| >= 1 ==> parts[0] <= r
    ensures |parts| >= 2 ==> parts[0] + glue <= r
    decreases |parts|
  {
    if |parts| == 0 then []
    else if |parts| == 1 then parts[0]
    else parts[0] + glue + Implode(parts[1..], glue)
  }

  // ---------------------------------------------------------------------------
  // trim()

  /** Trimming an already trimmed string changes nothing. */
  lemma TrimOfTrimmed(s: string)
    requires IsTrimmed(s)
    ensures Trim(s) == s
  {
  }

  /** trim() yields "" exactly for the strings made only of whitespace. */
  lemma TrimEmptyIffBlank(s: string)
    ensures Trim(s) == [] <==> forall k :: 0 <= k < |s| ==> IsTrimChar(s[k])
  {
    var l := TrimLeft(s);
    TrimLeftKeepsSuffix(s);
    TrimRightKeepsPrefix(l);
    if Trim(s) == [] {
      assert TrimRight(l) == [];
    }
  }

  // ---------------------------------------------------------------------------
  // explode() and implode()

  /** A string without the separator explodes into itself. */
  lemma {:induction false} ExplodeNoSep(a: string, sep: char)
    requires sep !in a
    ensures Explode(a, sep) == [a]
    decreases |a|
  {
    if a != [] {
      assert a[0] in a;
      assert forall c :: c in a[1..] ==> c in a;
      ExplodeNoSep(a[1..], sep);
      assert [a[0]] + a[1..] == a;
    }
  }

  /** Exploding a + sep + b splits off a as the first piece when a holds no separator. */
  lemma {:induction false} ExplodeCons(a: string, sep: char, b: string)
    requires sep !in a
    ensures Explode(a + [sep] + b, sep) == [a] + Explode(b, sep)
    decreases |a|
  {
    var s := a + [sep] + b;
    if a == [] {
      assert s[0] == sep && s[1..] == b;
    } else {
      assert a[0] in a;
      assert forall c :: c in a[1..] ==> c in a;
      assert s[0] == a[0] && s[1..] == a[1..] + [sep] + b;
      ExplodeCons(a[1..], sep, b);
      assert [a[0]] + a[1..] == a;
    }
  }

  /** Joining the pieces of explode() with the separator gives back the input. */
  lemma {:induction false} ImplodeExplode(s: string, sep: char)
    ensures Implode(Explode(s, sep), [sep]) == s
    decreases |s|
  {
    if s != [] {
      var rest := Explode(s[1..], sep);
      ImplodeExplode(s[1..], sep);
      if s[0] == sep {
        assert Explode(s, sep) == [[]] + rest;
        assert s == [sep] + s[1..];
      } else {
        var r := [[s[0]] + rest[0]] + rest[1..];
        assert Explode(s, sep) == r;
        assert r[1..] == rest[1..];
        if |rest| == 1 {
          assert s == [s[0]] + s[1..];
        } else {
          assert Implode(rest, [sep]) == rest[0] + [sep] + Implode(rest[1..], [sep]);
          assert s == [s[0]] + s[1..];
        }
      }
    }
  }

  /** Exploding a join of separator-free parts gives back the parts. */
  lemma {:induction false} ExplodeImplode(parts: seq<string>, sep: char)
    requires |parts| >= 1
    requires forall p :: p in parts ==> sep !in p
    ensures Explode(Implode(parts, [sep]), sep) == parts
    decreases |parts|
  {
    assert parts[0] in parts;
    if |parts| == 1 {
      ExplodeNoSep(parts[0], sep);
    } else {
      assert forall p :: p in parts[1..] ==> p in parts;
      ExplodeImplode(parts[1..], sep);
      ExplodeCons(parts[0], sep, Implode(parts[1..], [sep]));
      assert [parts[0]] + parts[1..] == parts;
    }
  }
}
