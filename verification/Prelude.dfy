/** Shared value types. */
module Prelude {

  datatype Option<+T> = None | Some(value: T)

  datatype Result<+T, +E> = Ok(value: T) | Err(error: E)

  ghost predicate NoDup<T>(s: seq<T>) {
    forall i, j :: 0 <= i < j < |s| ==> s[i] != s[j]
  }

  lemma FirstIsMember<T>(s: seq<T>)
    ensures s != [] ==> s[0] in s
  {
  }

  /** A sequence with the same multiset as a duplicate-free one is duplicate-free. */
  lemma PermutationKeepsNoDup<T>(s: seq<T>, t: seq<T>)
    requires NoDup(s)
    requires multiset(s) == multiset(t)
    ensures NoDup(t)
    ensures forall x :: x in s <==> x in t
  {
    forall x
      ensures x in s <==> x in t
    {
      assert x in s <==> x in multiset(s);
      assert x in t <==> x in multiset(t);
    }
    forall i, j | 0 <= i < j < |t|
      ensures t[i] != t[j]
    {
      if t[i] == t[j] {
        assert t == t[..i] + [t[i]] + t[i + 1..j] + [t[j]] + t[j + 1..];
        assert multiset(t)[t[i]] >= 2;
        NoDupMultiplicity(s, t[i]);
      }
    }
  }

  lemma NoDupMultiplicity<T>(s: seq<T>, x: T)
    requires NoDup(s)
    ensures multiset(s)[x] <= 1
  {
    if |s| > 0 {
      assert s == s[..|s| - 1] + [s[|s| - 1]];
      NoDupMultiplicity(s[..|s| - 1], x);
      if x == s[|s| - 1] {
        assert x !in s[..|s| - 1];
        assert x !in multiset(s[..|s| - 1]);
      }
    }
  }

  /** Inserting an element anywhere adds one occurrence of it. */
  lemma InsertPermutes<T>(a: seq<T>, x: T, b: seq<T>)
    ensures multiset(a + [x] + b) == multiset(a + b) + multiset{x}
  {
    assert multiset(a + [x] + b) == multiset(a) + multiset{x} + multiset(b);
    assert multiset(a + b) == multiset(a) + multiset(b);
  }

  /** The same when one of three parts grows at its end. */
  lemma OneOfThreeGrows<T>(a: seq<T>, b: seq<T>, c: seq<T>, a': seq<T>, b': seq<T>, c': seq<T>, x: T)
    requires || (a' == a + [x] && b' == b && c' == c)
             || (a' == a && b' == b + [x] && c' == c)
             || (a' == a && b' == b && c' == c + [x])
    ensures multiset(a' + b' + c') == multiset(a + b + c) + multiset{x}
  {
    assert multiset(a' + b' + c') == multiset(a') + multiset(b') + multiset(c');
    assert multiset(a + b + c) == multiset(a) + multiset(b) + multiset(c);
  }

  lemma AddEitherWay<T>(p: multiset<T>, r: multiset<T>, x: T)
    ensures (p + multiset{x}) + r == (p + r) + multiset{x} == p + (r + multiset{x})
  {
  }

  // ---------------------------------------------------------------- text

  /** Python's `str.isspace`. */
  predicate Blank(c: char) {
    || '\t' <= c <= '\r' || '\U{1c}' <= c <= ' ' || c == '\U{85}' || c == '\U{a0}' || c == '\U{1680}'
    || '\U{2000}' <= c <= '\U{200a}' || c == '\U{2028}' || c == '\U{2029}' || c == '\U{202f}'
    || c == '\U{205f}' || c == '\U{3000}'
  }

  /** The characters that Python takes for white space. */
  const WHITE := "\t\n\U{b}\U{c}\r\U{1c}\U{1d}\U{1e}\U{1f} " + WIDE
  const WIDE := "\U{85}\U{a0}\U{1680}\U{2000}\U{2001}\U{2002}\U{2003}\U{2004}\U{2005}\U{2006}" + MORE
  const MORE := "\U{2007}\U{2008}\U{2009}\U{200a}\U{2028}\U{2029}\U{202f}\U{205f}\U{3000}"

  ghost predicate AllBlank(s: string) {
    forall i :: 0 <= i < |s| ==> Blank(s[i])
  }

  /** `core` is `s` without the white space around it. */
  ghost predicate Stripped(s: string, core: string) {
    && (core != "" ==> !Blank(core[0]) && !Blank(core[|core| - 1]))
    && exists a, b :: AllBlank(a) && AllBlank(b) && s == a + core + b
  }

  /** Python's `str.strip`. */
  function Strip(s: string): string
    decreases |s|
  {
    if s != "" && Blank(s[0]) then Strip(s[1..])
    else if s != "" && Blank(s[|s| - 1]) then Strip(s[..|s| - 1])
    else s
  }

  lemma {:induction false} StripStrips(s: string)
    ensures Stripped(s, Strip(s))
    decreases |s|
  {
    if s != "" && Blank(s[0]) {
      StripStrips(s[1..]);
      StripFirst(s, Strip(s[1..]));
    } else if s != "" && Blank(s[|s| - 1]) {
      StripStrips(s[..|s| - 1]);
      StripLast(s, Strip(s[..|s| - 1]));
    } else {
      assert s == [] + s + [] && AllBlank([]);
    }
  }

  lemma StripFirst(s: string, core: string)
    requires s != "" && Blank(s[0]) && Stripped(s[1..], core)
    ensures Stripped(s, core)
  {
    var a, b :| AllBlank(a) && AllBlank(b) && s[1..] == a + core + b;
    var c := [s[0]] + a;
    assert AllBlank(c) && s == c + core + b;
  }

  lemma StripLast(s: string, core: string)
    requires s != "" && Blank(s[|s| - 1]) && Stripped(s[..|s| - 1], core)
    ensures Stripped(s, core)
  {
    var a, b :| AllBlank(a) && AllBlank(b) && s[..|s| - 1] == a + core + b;
    var c := b + [s[|s| - 1]];
    assert AllBlank(c) && s == a + core + c;
  }

  lemma BlankIff(c: char)
    ensures Blank(c) <==> c in WHITE
  {
    assert c in WHITE <==> c in "\t\n\U{b}\U{c}\r\U{1c}\U{1d}\U{1e}\U{1f} " || c in WIDE;
    assert c in WIDE
        <==> c in "\U{85}\U{a0}\U{1680}\U{2000}\U{2001}\U{2002}\U{2003}\U{2004}\U{2005}\U{2006}" || c in MORE;
    LowBlanks(c);
    WideBlanks(c);
  }

  lemma LowBlanks(c: char)
    ensures '\t' <= c <= '\r' || '\U{1c}' <= c <= ' ' <==> c in "\t\n\U{b}\U{c}\r\U{1c}\U{1d}\U{1e}\U{1f} "
  {
    var low := "\t\n\U{b}\U{c}\r\U{1c}\U{1d}\U{1e}\U{1f} ";
    if '\t' <= c <= '\r' {
      assert low[c as int - 9] == c;
    } else if '\U{1c}' <= c <= ' ' {
      assert low[c as int - 23] == c;
    }
  }

  lemma WideBlanks(c: char)
    ensures '\U{2000}' <= c <= '\U{200a}' ==>
              c in "\U{85}\U{a0}\U{1680}\U{2000}\U{2001}\U{2002}\U{2003}\U{2004}\U{2005}\U{2006}" || c in MORE
  {
    var wide := "\U{85}\U{a0}\U{1680}\U{2000}\U{2001}\U{2002}\U{2003}\U{2004}\U{2005}\U{2006}";
    if '\U{2000}' <= c <= '\U{2006}' {
      assert wide[c as int - 0x2000 + 3] == c;
    } else if '\U{2007}' <= c <= '\U{200a}' {
      assert MORE[c as int - 0x2007] == c;
    }
  }
}
