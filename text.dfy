/** String operations of the JavaScript runtime that the engine relies on: lexicographic
    comparison, `\s` whitespace, `trim`, `includes`, `indexOf` and `split`. Strings are
    sequences of characters; every string the engine inspects this way is BMP text, where
    JavaScript's UTF-16 code-unit order and Dafny's character order coincide. */
module Text {

  /** JavaScript `a < b` on strings: lexicographic, a proper prefix is smaller. */
  predicate StrLess(a: string, b: string)
    decreases |a|
  {
    if b == [] then false
    else if a == [] then true
    else if a[0] != b[0] then a[0] < b[0]
    else StrLess(a[1..], b[1..])
  }

  lemma {:induction false} StrLessIrreflexive(a: string)
    ensures !StrLess(a, a)
  {
    if a != [] {
      StrLessIrreflexive(a[1..]);
    }
  }

  /** The characters matched by the `\s` class of JavaScript regular expressions, which are
      also the ones `String.prototype.trim` removes. */
  predicate IsSpace(c: char)
  {
    c == '\t' || c == '\n' || c == '\U{000B}' || c == '\U{000C}' || c == '\r' || c == ' '
    || c == '\U{00A0}' || c == '\U{1680}' || ('\U{2000}' <= c <= '\U{200A}')
    || c == '\U{2028}' || c == '\U{2029}' || c == '\U{202F}' || c == '\U{205F}'
    || c == '\U{3000}' || c == '\U{FEFF}'
  }

  /** `s.trim()` */
  function Trim(s: string): string
  {
    TrimEnd(TrimStart(s))
  }

  function TrimStart(s: string): string
  {
    if s != [] && IsSpace(s[0]) then TrimStart(s[1..]) else s
  }

  function TrimEnd(s: string): string
  {
    if s != [] && IsSpace(s[|s| - 1]) then TrimEnd(s[..|s| - 1]) else s
  }

  /** Trimming the start drops the leading whitespace and keeps the rest. */
  lemma {:induction false} TrimStartSpec(s: string)
    ensures var r := TrimStart(s);
      |r| <= |s| && r == s[|s| - |r|..]
      && (r != [] ==> !IsSpace(r[0]))
      && forall i :: 0 <= i < |s| - |r| ==> IsSpace(s[i])
  {
    if s != [] && IsSpace(s[0]) {
      var t := s[1..];
      TrimStartSpec(t);
      var r := TrimStart(t);
      assert TrimStart(s) == r;
      assert t[|t| - |r|..] == s[|s| - |r|..];
      forall i | 0 <= i < |s| - |r|
        ensures IsSpace(s[i])
      {
        if i > 0 {
          assert s[i] == t[i - 1];
        }
      }
    }
  }

  /** Trimming the end drops the trailing whitespace and keeps the rest. */
  lemma {:induction false} TrimEndSpec(s: string)
    ensures var r := TrimEnd(s);
      |r| <= |s| && r == s[..|r|]
      && (r != [] ==> !IsSpace(r[|r| - 1]))
      && forall i :: |r| <= i < |s| ==> IsSpace(s[i])
  {
    if s != [] && IsSpace(s[|s| - 1]) {
      var t := s[..|s| - 1];
      TrimEndSpec(t);
      var r := TrimEnd(t);
      assert TrimEnd(s) == r;
      assert t[..|r|] == s[..|r|];
      forall i | |r| <= i < |s|
        ensures IsSpace(s[i])
      {
        if i < |t| {
          assert s[i] == t[i];
        }
      }
    }
  }

  /** A trimmed string is a piece of the original with no whitespace at either end. */
  lemma TrimSpec(s: string)
    ensures var r := Trim(s);
      |r| <= |s| && (r != [] ==> !IsSpace(r[0]) && !IsSpace(r[|r| - 1]))
      && forall c :: c in r ==> c in s
  {
    var t := TrimStart(s);
    TrimStartSpec(s);
    TrimEndSpec(t);
    var r := TrimEnd(t);
    if r != [] {
      assert r[0] == t[0];
    }
    forall c | c in r
      ensures c in s
    {
      var k :| 0 <= k < |r| && r[k] == c;
      assert s[|s| - |t| + k] == c;
    }
  }

  /** `s.trim() === ''` holds exactly for strings made of whitespace only. */
  lemma TrimEmpty(s: string)
    ensures Trim(s) == [] <==> forall i :: 0 <= i < |s| ==> IsSpace(s[i])
  {
    var t := TrimStart(s);
    TrimStartSpec(s);
    TrimEndSpec(t);
    if t != [] {
      assert !IsSpace(s[|s| - |t|]);
      assert TrimEnd(t) != [] by {
        assert !IsSpace(t[0]);
      }
    }
  }

  /** `text.startsWith(p)` */
  predicate StartsWith(text: string, p: string)
  {
    |p| <= |text| && text[..|p|] == p
  }

  /** `text.includes(p)` */
  predicate Contains(text: string, p: string)
    decreases |text|
  {
    StartsWith(text, p) || (text != [] && Contains(text[1..], p))
  }

  /** `p` occurs in `s` at position `i`. */
  predicate OccursAt(s: string, p: string, i: int)
  {
    0 <= i && i + |p| <= |s| && s[i..i + |p|] == p
  }

  lemma ContainsAt(text: string, p: string)
    ensures Contains(text, p) <==> exists i :: OccursAt(text, p, i)
  {
    if Contains(text, p) {
      var i := ContainsWitness(text, p);
    }
    if exists i :: OccursAt(text, p, i) {
      var i :| OccursAt(text, p, i);
      OccursContains(text, p, i);
    }
  }

  /** A string that includes `p` has a position where `p` occurs. */
  lemma {:induction false} ContainsWitness(text: string, p: string) returns (i: nat)
    requires Contains(text, p)
    ensures OccursAt(text, p, i)
    decreases |text|
  {
    if StartsWith(text, p) {
      i := 0;
    } else {
      var k := ContainsWitness(text[1..], p);
      i := k + 1;
      assert text[i..i + |p|] == text[1..][k..k + |p|];
    }
  }

  /** An occurrence anywhere makes `includes` true. */
  lemma {:induction false} OccursContains(text: string, p: string, i: nat)
    requires OccursAt(text, p, i)
    ensures Contains(text, p)
    decreases i
  {
    if i > 0 {
      assert text[1..][i - 1..i - 1 + |p|] == text[i..i + |p|];
      OccursContains(text[1..], p, i - 1);
    }
  }

  /** Containment is transitive: text that holds a longer spelling holds every piece of it. */
  lemma ContainsTransitive(text: string, p: string, q: string)
    requires Contains(text, p) && Contains(p, q)
    ensures Contains(text, q)
  {
    ContainsAt(text, p);
    ContainsAt(p, q);
    var i :| OccursAt(text, p, i);
    var j :| OccursAt(p, q, j);
    forall k | 0 <= k < |q|
      ensures text[i + j..i + j + |q|][k] == q[k]
    {
      assert text[i + j + k] == text[i..i + |p|][j + k];
    }
    assert OccursAt(text, q, i + j);
    ContainsAt(text, q);
  }

  /** `s.indexOf(p)`: the first position where `p` occurs. */
  function IndexOf(s: string, p: string): (r: Position)
    ensures r.Found? ==> r.value + |p| <= |s|
    decreases |s|
  {
    if StartsWith(s, p) then Found(0)
    else if s == [] then NotFound
    else
      match IndexOf(s[1..], p)
      case NotFound => NotFound
      case Found(k) => Found(k + 1)
  }

  datatype Position = NotFound | Found(value: nat)

  /** The position found is the first occurrence, and nothing is found only when `p` does not
      occur. */
  lemma {:induction false} IndexOfSpec(s: string, p: string)
    ensures var r := IndexOf(s, p);
      (r.Found? ==> OccursAt(s, p, r.value) && forall j :: 0 <= j < r.value ==> !OccursAt(s, p, j))
      && (r.NotFound? ==> forall j :: !OccursAt(s, p, j))
    decreases |s|
  {
    if !StartsWith(s, p) && s != [] {
      IndexOfSpec(s[1..], p);
      assert forall j :: 1 <= j ==> OccursAt(s, p, j) == OccursAt(s[1..], p, j - 1);
    }
  }

  /** `s.split(sep)` for a non-empty separator. */
  function Split(s: string, sep: string): (parts: seq<string>)
    requires sep != []
    ensures |parts| >= 1
    decreases |s|
  {
    match IndexOf(s, sep)
    case NotFound => [s]
    case Found(i) => [s[..i]] + Split(s[i + |sep|..], sep)
  }

  /** Joining the pieces of a split with the separator gives the string back. */
  lemma {:induction false} SplitJoin(s: string, sep: string)
    requires sep != []
    ensures Join(Split(s, sep), sep) == s
    decreases |s|
  {
    if IndexOf(s, sep).Found? {
      var i := IndexOf(s, sep).value;
      var rest := s[i + |sep|..];
      calc {
        Join(Split(s, sep), sep);
        Join([s[..i]] + Split(rest, sep), sep);
        { JoinCons(s[..i], Split(rest, sep), sep); }
        s[..i] + sep + Join(Split(rest, sep), sep);
        { SplitJoin(rest, sep); }
        s[..i] + sep + rest;
        { IndexOfSpec(s, sep); assert OccursAt(s, sep, i); }
        s;
      }
    }
  }

  lemma JoinCons(head: string, tail: seq<string>, sep: string)
    requires tail != []
    ensures Join([head] + tail, sep) == head + sep + Join(tail, sep)
  {
    assert ([head] + tail)[1..] == tail;
  }

  /** `parts.join(sep)` */
  function Join(parts: seq<string>, sep: string): string
    requires parts != []
  {
    if |parts| == 1 then parts[0] else parts[0] + sep + Join(parts[1..], sep)
  }

  /** `s.toLowerCase()` on the ASCII letters; every other character is kept. */
  function ToLower(s: string): string
  {
    if s == [] then [] else [LowerChar(s[0])] + ToLower(s[1..])
  }

  /** Lower-casing works character by character. */
  lemma {:induction false} ToLowerChars(s: string)
    ensures |ToLower(s)| == |s|
    ensures forall i :: 0 <= i < |s| ==> ToLower(s)[i] == LowerChar(s[i])
  {
    if s != [] {
      ToLowerChars(s[1..]);
    }
  }

  function LowerChar(c: char): char
  {
    if 'A' <= c <= 'Z' then (c as int + 32) as char else c
  }

  predicate IsDigit(c: char)
  {
    '0' <= c <= '9'
  }

  function DigitValue(c: char): nat
    requires IsDigit(c)
  {
    c as int - '0' as int
  }

  /** The value of a string of decimal digits, most significant first. */
  function Decimal(s: string): nat
    requires forall i :: 0 <= i < |s| ==> IsDigit(s[i])
  {
    if s == [] then 0 else 10 * Decimal(s[..|s| - 1]) + DigitValue(s[|s| - 1])
  }
}
