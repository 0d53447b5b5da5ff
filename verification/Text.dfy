// String handling shared by the stores and scanners, over UTF-16 code units.
module Text {

  /** What String.prototype.trim removes: ECMAScript white space and line terminators. */
  predicate IsSpace(c: char) {
    || c in "\t\n\r "
    || c == '\U{000B}' || c == '\U{000C}' || c == '\U{00A0}' || c == '\U{1680}'
    || '\U{2000}' <= c <= '\U{200A}'
    || c == '\U{2028}' || c == '\U{2029}' || c == '\U{202F}' || c == '\U{205F}' || c == '\U{3000}' || c == '\U{FEFF}'
  }

  /** By their code points: tab to carriage return, space, the Unicode space separators, the line and
      paragraph separators, and the byte order mark. */
  lemma SpacesExactly(c: char)
    ensures IsSpace(c) <==>
            c as int in {9, 10, 11, 12, 13, 32, 160, 5760, 8192, 8193, 8194, 8195, 8196, 8197, 8198, 8199, 8200, 8201,
                         8202, 8232, 8233, 8239, 8287, 12288, 65279}
  {
  }

  function TrimStart(s: string): string {
    if s != [] && IsSpace(s[0]) then TrimStart(s[1..]) else s
  }

  function TrimEnd(s: string): string {
    if s != [] && IsSpace(s[|s| - 1]) then TrimEnd(s[..|s| - 1]) else s
  }

  function Trim(s: string): string {
    TrimEnd(TrimStart(s))
  }

  /** Neither end is a space. */
  predicate Trimmed(s: string) {
    s == [] || (!IsSpace(s[0]) && !IsSpace(s[|s| - 1]))
  }

  lemma {:induction false} TrimEndKeepsFront(s: string)
    ensures TrimEnd(s) == [] || (s != [] && TrimEnd(s)[0] == s[0] && !IsSpace(TrimEnd(s)[|TrimEnd(s)| - 1]))
  {
    if s != [] && IsSpace(s[|s| - 1]) {
      TrimEndKeepsFront(s[..|s| - 1]);
    }
  }

  lemma {:induction false} TrimStartFront(s: string)
    ensures TrimStart(s) == [] || !IsSpace(TrimStart(s)[0])
  {
    if s != [] && IsSpace(s[0]) {
      TrimStartFront(s[1..]);
    }
  }

  lemma TrimIsTrimmed(s: string)
    ensures Trimmed(Trim(s))
  {
    TrimStartFront(s);
    TrimEndKeepsFront(TrimStart(s));
  }

  lemma TrimOfTrimmed(s: string)
    requires Trimmed(s)
    ensures Trim(s) == s
  {
  }

  lemma TrimIdempotent(s: string)
    ensures Trim(Trim(s)) == Trim(s)
  {
    TrimIsTrimmed(s);
  }

  lemma {:induction false} TrimStartOfBlank(s: string)
    ensures TrimStart(s) == "" <==> forall i :: 0 <= i < |s| ==> IsSpace(s[i])
  {
    if s != [] && IsSpace(s[0]) {
      TrimStartOfBlank(s[1..]);
      assert forall i :: 0 < i < |s| ==> s[i] == s[1..][i - 1];
    }
  }

  lemma {:induction false} TrimEndOfBlank(s: string)
    ensures TrimEnd(s) == "" <==> forall i :: 0 <= i < |s| ==> IsSpace(s[i])
  {
    if s != [] && IsSpace(s[|s| - 1]) {
      TrimEndOfBlank(s[..|s| - 1]);
    }
  }

  /** Trimming leaves nothing exactly of white space. */
  lemma TrimOfBlank(s: string)
    ensures Trim(s) == "" <==> forall i :: 0 <= i < |s| ==> IsSpace(s[i])
  {
    TrimStartOfBlank(s);
    TrimEndOfBlank(TrimStart(s));
    TrimStartFront(s);
  }

  lemma {:induction false} TrimStartDrops(s: string) returns (a: nat)
    ensures a <= |s| && TrimStart(s) == s[a..]
    ensures forall i :: 0 <= i < a ==> IsSpace(s[i])
  {
    a := 0;
    if s != [] && IsSpace(s[0]) {
      var rest := TrimStartDrops(s[1..]);
      a := rest + 1;
      assert forall i :: 0 < i < a ==> s[i] == s[1..][i - 1];
    }
  }

  lemma {:induction false} TrimEndDrops(s: string) returns (b: nat)
    ensures b <= |s| && TrimEnd(s) == s[..b]
    ensures forall i :: b <= i < |s| ==> IsSpace(s[i])
  {
    b := |s|;
    if s != [] && IsSpace(s[|s| - 1]) {
      b := TrimEndDrops(s[..|s| - 1]);
    }
  }

  /** Trimming leaves a stretch of the text, with only white space around it. */
  lemma TrimStrips(s: string) returns (a: nat, b: nat)
    ensures a <= b <= |s| && Trim(s) == s[a..b] && Trimmed(s[a..b])
    ensures forall i :: 0 <= i < |s| && !(a <= i < b) ==> IsSpace(s[i])
  {
    a := TrimStartDrops(s);
    var n := TrimEndDrops(s[a..]);
    b := a + n;
    TrimIsTrimmed(s);
    hide IsSpace;
    assert s[a..][..n] == s[a..b];
    forall i | b <= i < |s|
      ensures IsSpace(s[i])
    {
      assert s[i] == s[a..][i - a];
    }
  }

  /** And there is only one such stretch of characters. */
  lemma TrimExactly(s: string, a: nat, b: nat)
    requires a <= b <= |s| && Trimmed(s[a..b])
    requires forall i :: 0 <= i < |s| && !(a <= i < b) ==> IsSpace(s[i])
    ensures Trim(s) == s[a..b]
  {
    var x, y := TrimStrips(s);
    hide Trim, IsSpace;
    assert a < b ==> s[a..b][0] == s[a] && s[a..b][b - a - 1] == s[b - 1];
    assert x < y ==> s[x..y][0] == s[x] && s[x..y][y - x - 1] == s[y - 1];
  }

  /** The end of a blank text is blank. */
  lemma BlankEnd(a: string, b: string)
    requires Trim(a + b) == ""
    ensures Trim(b) == ""
  {
    TrimOfBlank(a + b);
    TrimOfBlank(b);
    hide Trim, IsSpace;
    forall i | 0 <= i < |b|
      ensures IsSpace(b[i])
    {
      assert (a + b)[|a| + i] == b[i];
    }
  }

  function LowerChar(c: char): char {
    if 'A' <= c <= 'Z' then c - 'A' + 'a' else c
  }

  /** toLowerCase on the ASCII letters. */
  function Lower(s: string): (r: string)
    ensures |r| == |s|
  {
    seq(|s|, i requires 0 <= i < |s| => LowerChar(s[i]))
  }

  /** The same character, or the two cases of one of the 26 letters. */
  predicate SameLetter(x: char, y: char) {
    || x == y
    || ('A' <= x <= 'Z' && y as int == x as int + 32)
    || ('A' <= y <= 'Z' && x as int == y as int + 32)
  }

  lemma SameLowerExactly(a: string, b: string)
    ensures Lower(a) == Lower(b) <==> |a| == |b| && forall i :: 0 <= i < |a| ==> SameLetter(a[i], b[i])
  {
    forall i | 0 <= i < |a| && i < |b|
      ensures Lower(a)[i] == Lower(b)[i] <==> SameLetter(a[i], b[i])
    {
    }
    hide SameLetter;
    if Lower(a) == Lower(b) {
      assert |a| == |b|;
    } else if |a| == |b| {
      var i :| 0 <= i < |a| && Lower(a)[i] != Lower(b)[i];
    }
  }
}
