/** The three Python string methods the bot relies on, restricted to ASCII:
    `str.title()` for contact names, `str.lower()` for the command word and
    `str.split()` with no separator for breaking an input line into tokens. */
module Text {

  /** Python's `str.isspace()` on ASCII: space, the controls \t \n \v \f \r
      (9 to 13) and the four separator controls 0x1c to 0x1f. */
  predicate IsSpace(c: char) {
    var k := c as int;
    k == 32 || 9 <= k <= 13 || 28 <= k <= 31
  }

  predicate IsUpper(c: char) { 'A' <= c <= 'Z' }
  predicate IsLower(c: char) { 'a' <= c <= 'z' }

  /** The cased characters of ASCII: only letters have a case. */
  predicate IsLetter(c: char) { IsUpper(c) || IsLower(c) }

  function ToUpper(c: char): (u: char)
    ensures IsLetter(c) ==> IsUpper(u)
    ensures IsLetter(u) == IsLetter(c) && IsSpace(u) == IsSpace(c)
    ensures !IsLower(c) ==> u == c
  {
    if IsLower(c) then (c as int - 32) as char else c
  }

  function ToLower(c: char): (l: char)
    ensures IsLetter(c) ==> IsLower(l)
    ensures IsLetter(l) == IsLetter(c) && IsSpace(l) == IsSpace(c)
    ensures !IsUpper(c) ==> l == c
  {
    if IsUpper(c) then (c as int + 32) as char else c
  }

  /** `str.lower()`: no capital is left, a character is a letter exactly
      when it was one, and only capitals change. */
  function Lower(s: string): (r: string)
    ensures |r| == |s|
    ensures forall i :: 0 <= i < |r| ==> !IsUpper(r[i]) && (IsLetter(r[i]) <==> IsLetter(s[i]))
    ensures forall i :: 0 <= i < |r| && !IsUpper(s[i]) ==> r[i] == s[i]
  {
    seq(|s|, i requires 0 <= i < |s| => ToLower(s[i]))
  }

  /** `str.lower()` leaves a string without capitals alone. */
  lemma LowerNoCapitals(s: string)
    requires forall i :: 0 <= i < |s| ==> !IsUpper(s[i])
    ensures Lower(s) == s
  {
  }

  /** Two strings that differ at most in the case of their letters. */
  predicate EqualIgnoringCase(a: string, b: string) {
    |a| == |b| && forall i :: 0 <= i < |a| ==> ToLower(a[i]) == ToLower(b[i])
  }

  /** Two strings lower-case to the same string exactly when they differ
      at most in the case of their letters. */
  lemma LowerIgnoresCase(a: string, b: string)
    ensures Lower(a) == Lower(b) <==> EqualIgnoringCase(a, b)
  {
    if Lower(a) == Lower(b) {
      forall i | 0 <= i < |a| ensures ToLower(a[i]) == ToLower(b[i]) {
        assert Lower(a)[i] == Lower(b)[i];
      }
    }
  }

  /** Lower-casing twice is lower-casing once. */
  lemma LowerIdempotent(s: string)
    ensures Lower(Lower(s)) == Lower(s)
  {
    LowerNoCapitals(Lower(s));
  }

  /** One character of `str.title()`: lower-cased after a cased character,
      otherwise upper-cased (both leave a non-letter alone). */
  function TitleChar(c: char, afterCased: bool): char {
    if afterCased then ToLower(c) else ToUpper(c)
  }

  /** `str.title()` on the rest of a string, `afterCased` telling whether the
      character before it was a letter. */
  function TitleFrom(s: string, afterCased: bool): (r: string)
    ensures |r| == |s|
  {
    if s == [] then []
    else [TitleChar(s[0], afterCased)] + TitleFrom(s[1..], IsLetter(s[0]))
  }

  /** `str.title()`: every letter that starts a run of letters is upper-cased,
      every other letter is lower-cased, every other character is kept. */
  function Title(s: string): (r: string)
    ensures |r| == |s|
    ensures EqualIgnoringCase(r, s)
  {
    TitleFromCase(s, false);
    TitleFrom(s, false)
  }

  /** `str.title()` changes nothing but the case of letters. */
  lemma {:induction false} TitleFromCase(s: string, afterCased: bool)
    ensures EqualIgnoringCase(TitleFrom(s, afterCased), s)
  {
    if s != [] {
      var t := TitleFrom(s, afterCased);
      TitleFromCase(s[1..], IsLetter(s[0]));
      assert t[0] == TitleChar(s[0], afterCased);
      assert t[1..] == TitleFrom(s[1..], IsLetter(s[0]));
      forall i | 0 <= i < |t| ensures ToLower(t[i]) == ToLower(s[i]) {
        if i > 0 {
          assert t[i] == t[1..][i - 1] && s[i] == s[1..][i - 1];
        }
      }
    }
  }

  lemma {:induction false} TitleFromAt(s: string, afterCased: bool, i: nat)
    requires i < |s|
    ensures TitleFrom(s, afterCased)[i]
         == TitleChar(s[i], if i == 0 then afterCased else IsLetter(s[i - 1]))
  {
    if i > 0 {
      TitleFromAt(s[1..], IsLetter(s[0]), i - 1);
    }
  }

  /** The character-wise reading of `str.title()`. */
  lemma TitleAt(s: string, i: nat)
    requires i < |s|
    ensures |Title(s)| == |s|
    ensures !IsLetter(s[i]) ==> Title(s)[i] == s[i]
    ensures IsLetter(s[i]) && (i == 0 || !IsLetter(s[i - 1])) ==> IsUpper(Title(s)[i])
    ensures IsLetter(s[i]) && i > 0 && IsLetter(s[i - 1]) ==> IsLower(Title(s)[i])
    ensures ToLower(Title(s)[i]) == ToLower(s[i])
  {
    TitleFromAt(s, false, i);
  }

  lemma {:induction false} TitleFromIdempotent(s: string, afterCased: bool)
    ensures TitleFrom(TitleFrom(s, afterCased), afterCased) == TitleFrom(s, afterCased)
  {
    if s != [] {
      var t := TitleFrom(s, afterCased);
      assert t[0] == TitleChar(s[0], afterCased);
      assert t[1..] == TitleFrom(s[1..], IsLetter(s[0]));
      TitleFromIdempotent(s[1..], IsLetter(s[0]));
    }
  }

  /** Title-casing a name that is already title-cased changes nothing. */
  lemma TitleIdempotent(s: string)
    ensures Title(Title(s)) == Title(s)
  {
    TitleFromIdempotent(s, false);
  }

  lemma {:induction false} TitleFromIgnoresCase(a: string, b: string, afterCased: bool)
    requires EqualIgnoringCase(a, b)
    ensures TitleFrom(a, afterCased) == TitleFrom(b, afterCased)
  {
    if a != [] {
      assert ToLower(a[0]) == ToLower(b[0]);
      assert EqualIgnoringCase(a[1..], b[1..]) by {
        forall i | 0 <= i < |a| - 1 ensures ToLower(a[1..][i]) == ToLower(b[1..][i]) {
          assert ToLower(a[i + 1]) == ToLower(b[i + 1]);
        }
      }
      TitleFromIgnoresCase(a[1..], b[1..], IsLetter(a[0]));
    }
  }

  /** Names that differ only in the case of their letters title-case to the
      same key: "bob", "BOB" and "bOb" all become "Bob". */
  lemma TitleIgnoresCase(a: string, b: string)
    requires EqualIgnoringCase(a, b)
    ensures Title(a) == Title(b)
  {
    TitleFromIgnoresCase(a, b, false);
  }

  /** A token of `str.split()`: non-empty and free of whitespace. */
  predicate Token(t: string) {
    t != [] && forall i :: 0 <= i < |t| ==> !IsSpace(t[i])
  }

  /** The length of the run of non-whitespace characters that starts `s`. */
  function TokenLength(s: string): (n: nat)
    ensures n <= |s|
    ensures forall i :: 0 <= i < n ==> !IsSpace(s[i])
    ensures n < |s| ==> IsSpace(s[n])
  {
    if s == [] || IsSpace(s[0]) then 0 else 1 + TokenLength(s[1..])
  }

  /** `str.split()` with no separator: the maximal runs of non-whitespace
      characters, in order; leading, trailing and repeated whitespace yields
      no empty token. */
  function Split(s: string): (r: seq<string>)
    ensures forall k :: 0 <= k < |r| ==> Token(r[k])
    decreases |s|
  {
    if s == [] then []
    else if IsSpace(s[0]) then Split(s[1..])
    else
      var n := TokenLength(s);
      [s[..n]] + Split(s[n..])
  }

  predicate AllSpace(s: string) {
    forall i :: 0 <= i < |s| ==> IsSpace(s[i])
  }

  /** A line splits into no tokens exactly when it is all whitespace. */
  lemma {:induction false} SplitEmptyIff(s: string)
    ensures Split(s) == [] <==> AllSpace(s)
    decreases |s|
  {
    if s != [] {
      if IsSpace(s[0]) {
        SplitEmptyIff(s[1..]);
        if AllSpace(s[1..]) {
          forall i | 0 <= i < |s| ensures IsSpace(s[i]) {
            if i > 0 { assert s[i] == s[1..][i - 1]; }
          }
        }
      }
    }
  }

  /** The characters of `s` that are not whitespace, in order. */
  function Visible(s: string): string {
    if s == [] then [] else (if IsSpace(s[0]) then [] else [s[0]]) + Visible(s[1..])
  }

  function Concat(ts: seq<string>): string {
    if ts == [] then [] else ts[0] + Concat(ts[1..])
  }

  lemma {:induction false} VisibleAppend(a: string, b: string)
    ensures Visible(a + b) == Visible(a) + Visible(b)
  {
    if a != [] {
      assert (a + b)[0] == a[0] && (a + b)[1..] == a[1..] + b;
      VisibleAppend(a[1..], b);
      var head := if IsSpace(a[0]) then [] else [a[0]];
      assert Visible(a + b) == head + (Visible(a[1..]) + Visible(b));
    } else {
      assert a + b == b;
    }
  }

  lemma {:induction false} VisibleOfNoSpace(t: string)
    requires forall i :: 0 <= i < |t| ==> !IsSpace(t[i])
    ensures Visible(t) == t
  {
    if t != [] {
      VisibleOfNoSpace(t[1..]);
    }
  }

  /** Splitting loses no character but whitespace and invents none: the tokens
      put back together are the line with its whitespace removed. */
  lemma {:induction false} SplitKeepsText(s: string)
    ensures Concat(Split(s)) == Visible(s)
    decreases |s|
  {
    if s != [] {
      if IsSpace(s[0]) {
        SplitKeepsText(s[1..]);
      } else {
        var n := TokenLength(s);
        assert s == s[..n] + s[n..];
        VisibleAppend(s[..n], s[n..]);
        VisibleOfNoSpace(s[..n]);
        SplitKeepsText(s[n..]);
        assert Split(s) == [s[..n]] + Split(s[n..]);
        assert Split(s)[1..] == Split(s[n..]);
      }
    }
  }

  /** The tokens joined back with one space between neighbours. */
  function Join(ts: seq<string>): string {
    if ts == [] then ""
    else if |ts| == 1 then ts[0]
    else ts[0] + " " + Join(ts[1..])
  }

  lemma {:induction false} TokenLengthOf(t: string, rest: string)
    requires forall i :: 0 <= i < |t| ==> !IsSpace(t[i])
    requires rest == [] || IsSpace(rest[0])
    ensures TokenLength(t + rest) == |t|
  {
    if t == [] {
      assert t + rest == rest;
    } else {
      assert (t + rest)[0] == t[0] && (t + rest)[1..] == t[1..] + rest;
      TokenLengthOf(t[1..], rest);
    }
  }

  /** A token followed by whitespace or by nothing splits off as one token. */
  lemma SplitToken(t: string, rest: string)
    requires Token(t)
    requires rest == [] || IsSpace(rest[0])
    ensures Split(t + rest) == [t] + Split(rest)
  {
    var s := t + rest;
    TokenLengthOf(t, rest);
    assert s[0] == t[0];
    assert s[..|t|] == t && s[|t|..] == rest;
  }

  /** Splitting undoes joining with single spaces. */
  lemma {:induction false} SplitJoin(ts: seq<string>)
    requires forall k :: 0 <= k < |ts| ==> Token(ts[k])
    ensures Split(Join(ts)) == ts
  {
    if |ts| == 1 {
      SplitToken(ts[0], "");
      assert ts[0] + "" == ts[0];
    } else if |ts| > 1 {
      var rest := Join(ts[1..]);
      SplitToken(ts[0], " " + rest);
      assert ts[0] + " " + rest == ts[0] + (" " + rest);
      assert (" " + rest)[1..] == rest;
      SplitJoin(ts[1..]);
    }
  }

  /** Lower-casing keeps a token a token. */
  lemma LowerToken(t: string)
    requires Token(t)
    ensures Token(Lower(t))
  {
    forall i | 0 <= i < |t| ensures !IsSpace(Lower(t)[i]) {
      assert Lower(t)[i] == ToLower(t[i]);
    }
  }
}
