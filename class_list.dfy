/** The class-attribute string layer: an element's `className` is a string of
    class names separated by spaces.  Membership, adding and removing work by
    plain string search and replacement, with the semantics of the ECMAScript
    string built-ins they call (indexOf, split, replace, trim). */
module ClassList {

  // ---------------------------------------------------------------------------
  // ECMAScript string built-ins
  // ---------------------------------------------------------------------------

  /** The characters String.prototype.trim removes: WhiteSpace and
      LineTerminator of sections 7.2 and 7.3 of ECMA-262 5.1 (the Zs
      characters of Unicode, tab, vertical tab, form feed, no-break space,
      byte order mark, line feed, carriage return, line and paragraph separator). */
  predicate IsWhitespace(ch: char) {
    ch == '\t' || ch == '\n' || ch == '\U{000B}' || ch == '\U{000C}' || ch == '\r' ||
    ch == ' ' || ch == '\U{00A0}' || ch == '\U{1680}' || ('\U{2000}' <= ch <= '\U{200A}') ||
    ch == '\U{2028}' || ch == '\U{2029}' || ch == '\U{202F}' || ch == '\U{205F}' ||
    ch == '\U{3000}' || ch == '\U{FEFF}'
  }

  /** Leading whitespace removed. */
  function TrimStart(s: string): string {
    if s != [] && IsWhitespace(s[0]) then TrimStart(s[1..]) else s
  }

  /** Trailing whitespace removed. */
  function TrimEnd(s: string): string {
    if s != [] && IsWhitespace(s[|s| - 1]) then TrimEnd(s[..|s| - 1]) else s
  }

  /** String.prototype.trim. */
  function Trim(s: string): string {
    TrimEnd(TrimStart(s))
  }

  /** TrimStart drops exactly the leading whitespace: what remains is a
      suffix of `s` that is empty or starts with a non-whitespace character. */
  lemma {:induction false} TrimStartSpec(s: string)
    ensures var r := TrimStart(s);
      |r| <= |s| && r == s[|s| - |r|..] &&
      (forall k :: 0 <= k < |s| - |r| ==> IsWhitespace(s[k])) &&
      (r == [] || !IsWhitespace(r[0]))
  {
    if s != [] && IsWhitespace(s[0]) {
      TrimStartSpec(s[1..]);
      var r := TrimStart(s);
      assert s[1..][|s| - 1 - |r|..] == s[|s| - |r|..];
      assert forall k :: 1 <= k < |s| ==> s[k] == s[1..][k - 1];
    }
  }

  /** TrimEnd drops exactly the trailing whitespace. */
  lemma {:induction false} TrimEndSpec(s: string)
    ensures var r := TrimEnd(s);
      |r| <= |s| && r == s[..|r|] &&
      (forall k :: |r| <= k < |s| ==> IsWhitespace(s[k])) &&
      (r == [] || !IsWhitespace(r[|r| - 1]))
  {
    if s != [] && IsWhitespace(s[|s| - 1]) {
      TrimEndSpec(s[..|s| - 1]);
      var r := TrimEnd(s);
      assert s[..|s| - 1][..|r|] == s[..|r|];
      assert forall k :: 0 <= k < |s| - 1 ==> s[k] == s[..|s| - 1][k];
    }
  }

  /** trim leaves a string whose ends are not whitespace; it is empty exactly
      when `s` is all whitespace. */
  lemma TrimSpec(s: string)
    ensures var r := Trim(s);
      |r| <= |s| &&
      (r == [] || (!IsWhitespace(r[0]) && !IsWhitespace(r[|r| - 1]))) &&
      ((forall k :: 0 <= k < |s| ==> IsWhitespace(s[k])) <==> r == []) &&
      exists i :: Occurs(r, s, i)
  {
    var t := TrimStart(s);
    TrimStartSpec(s);
    TrimEndSpec(t);
    var r := Trim(s);
    var i := |s| - |t|;
    assert t == s[i..] && r == t[..|r|];
    assert Occurs(r, s, i);
    assert forall k :: i + |r| <= k < |s| ==> s[k] == t[k - i];
    if r != [] {
      assert s[i] == r[0];
    }
  }

  /** `pat` occurs in `t` at position `j`. */
  predicate Occurs(pat: string, t: string, j: int) {
    0 <= j && j + |pat| <= |t| && t[j..j + |pat|] == pat
  }

  /** `j` is the first position where `pat` occurs in `t`. */
  predicate FirstOccurrence(pat: string, t: string, j: int) {
    Occurs(pat, t, j) && forall k :: 0 <= k < j ==> !Occurs(pat, t, k)
  }

  /** The search behind String.prototype.indexOf, started at `from`. */
  function IndexOfFrom(t: string, pat: string, from: nat): (r: int)
    decreases |t| - from
    ensures r == -1 || (from <= r && Occurs(pat, t, r))
    ensures forall j :: from <= j && (r == -1 || j < r) ==> !Occurs(pat, t, j)
  {
    if from + |pat| > |t| then -1
    else if t[from..from + |pat|] == pat then from
    else IndexOfFrom(t, pat, from + 1)
  }

  /** String.prototype.indexOf: the first position of `pat` in `t`, or -1. */
  function IndexOf(t: string, pat: string): (r: int)
    ensures r == -1 <==> forall j :: !Occurs(pat, t, j)
    ensures r != -1 ==> FirstOccurrence(pat, t, r)
  {
    IndexOfFrom(t, pat, 0)
  }

  /** String.prototype.replace with a string pattern: only the FIRST
      occurrence of `pat` is replaced (`rep` holds no `$` pattern). */
  function ReplaceFirst(t: string, pat: string, rep: string): (r: string)
    ensures (forall j :: !Occurs(pat, t, j)) ==> r == t
    ensures forall i :: FirstOccurrence(pat, t, i) ==> r == t[..i] + rep + t[i + |pat|..]
  {
    var i := IndexOf(t, pat);
    if i == -1 then t else t[..i] + rep + t[i + |pat|..]
  }

  /** String.prototype.split(' '): the pieces between single spaces, empty
      pieces included (so "" gives [""] and "a  b" gives ["a", "", "b"]). */
  function Split(s: string): (r: seq<string>)
    ensures |r| >= 1
  {
    if s == [] then [""]
    else
      var rest := Split(s[1..]);
      if s[0] == ' ' then [""] + rest else [[s[0]] + rest[0]] + rest[1..]
  }

  /** The non-empty strings of `xs`, in order. */
  function NonEmpty(xs: seq<string>): (r: seq<string>)
    ensures |r| <= |xs|
    ensures forall w :: w in r <==> w in xs && w != ""
  {
    if xs == [] then []
    else if xs[0] == "" then NonEmpty(xs[1..])
    else [xs[0]] + NonEmpty(xs[1..])
  }

  // ---------------------------------------------------------------------------
  // Class names and class strings
  // ---------------------------------------------------------------------------

  /** A single class name: non-empty and free of whitespace. */
  predicate IsToken(c: string) {
    c != [] && forall ch :: ch in c ==> !IsWhitespace(ch)
  }

  /** The only whitespace in `s` is the space character. */
  predicate SpaceOnly(s: string) {
    forall ch :: ch in s ==> ch == ' ' || !IsWhitespace(ch)
  }

  /** The class names a class string carries, in order: the non-empty
      pieces of split(' '). */
  function Words(s: string): seq<string> {
    NonEmpty(Split(s))
  }

  /** How often `w` occurs in `xs`. */
  function Count(xs: seq<string>, w: string): (n: nat)
    ensures n > 0 <==> w in xs
    ensures n <= |xs|
  {
    if xs == [] then 0 else (if xs[0] == w then 1 else 0) + Count(xs[1..], w)
  }

  /** No class name occurs twice. */
  predicate NoDuplicates(ws: seq<string>) {
    forall i, j :: 0 <= i < j < |ws| ==> ws[i] != ws[j]
  }

  /** The class strings the lemmas below speak about: space is the only
      whitespace and no class name is repeated. */
  predicate WellFormed(s: string) {
    SpaceOnly(s) && NoDuplicates(Words(s))
  }

  /** hasClass (calcite-web.js): is " c " a substring of " s "? */
  function HasClass(s: string, c: string): (r: bool)
    ensures r <==> exists j :: Occurs(" " + c + " ", " " + s + " ", j)
  {
    IndexOf(" " + s + " ", " " + c + " ") != -1
  }

  /** One step of addClass: append " c" unless hasClass already holds. */
  function AddOne(s: string, c: string): string {
    if HasClass(s, c) then s else s + " " + c
  }

  /** addClass over the pieces `cs`, left to right. */
  function AddAll(s: string, cs: seq<string>): string {
    if cs == [] then s else AddOne(AddAll(s, cs[..|cs| - 1]), cs[|cs| - 1])
  }

  /** The className addClass(el, classes) leaves behind. */
  function AddClassValue(s: string, classes: string): string {
    AddAll(s, Split(classes))
  }

  /** The loop of removeClass: replace the first " c " by " ", piece by piece. */
  function RemoveAll(e: string, cs: seq<string>): string {
    if cs == [] then e
    else ReplaceFirst(RemoveAll(e, cs[..|cs| - 1]), " " + cs[|cs| - 1] + " ", " ")
  }

  /** The className removeClass(el, classes) leaves behind. */
  function RemoveClassValue(s: string, classes: string): string {
    Trim(RemoveAll(" " + s + " ", Split(classes)))
  }

  /** The className toggleClass(el, c) leaves behind. */
  function ToggleClassValue(s: string, c: string): string {
    if HasClass(s, c) then RemoveClassValue(s, c) else AddClassValue(s, c)
  }

  /** `xs` without its first `c`. */
  function RemoveFirst(xs: seq<string>, c: string): seq<string> {
    if xs == [] then []
    else if xs[0] == c then xs[1..]
    else [xs[0]] + RemoveFirst(xs[1..], c)
  }

  // ---------------------------------------------------------------------------
  // split(' ') and the class names of a string
  // ---------------------------------------------------------------------------

  /** One step of split(' '). */
  lemma SplitStep(s: string)
    requires s != []
    ensures var rest := Split(s[1..]);
      Split(s) == if s[0] == ' ' then [""] + rest else [[s[0]] + rest[0]] + rest[1..]
  {
  }

  /** Extending the first piece commutes with appending pieces behind. */
  lemma ExtendFirstPiece(ch: char, ra: seq<string>, t: seq<string>)
    requires |ra| >= 1
    ensures var rest := ra + t;
      [[ch] + rest[0]] + rest[1..] == ([[ch] + ra[0]] + ra[1..]) + t
  {
    var rest := ra + t;
    assert rest[0] == ra[0];
    assert rest[1..] == ra[1..] + t;
  }

  /** Two strings with the same first character: if their tails split alike
      up to a common suffix of pieces `t`, so do the strings themselves. */
  lemma {:induction false} SplitCons(x: string, a: string, t: seq<string>)
    requires x != [] && a != [] && x[0] == a[0] && Split(x[1..]) == Split(a[1..]) + t
    ensures Split(x) == Split(a) + t
  {
    SplitStep(x);
    SplitStep(a);
    if a[0] == ' ' {
      assert [""] + (Split(a[1..]) + t) == ([""] + Split(a[1..])) + t;
    } else {
      ExtendFirstPiece(a[0], Split(a[1..]), t);
    }
  }

  /** Splitting at one space splits the pieces. */
  lemma {:induction false} SplitAtSpace(a: string, b: string)
    ensures Split(a + " " + b) == Split(a) + Split(b)
    decreases |a|
  {
    if a == [] {
      assert a + " " + b == " " + b;
      assert (" " + b)[1..] == b;
    } else {
      var x := a + " " + b;
      assert x[0] == a[0] && x[1..] == a[1..] + " " + b;
      SplitAtSpace(a[1..], b);
      SplitCons(x, a, Split(b));
    }
  }

  /** A string without spaces is a single piece. */
  lemma {:induction false} SplitSpaceFree(c: string)
    requires ' ' !in c
    ensures Split(c) == [c]
  {
    if c != [] {
      assert c == [c[0]] + c[1..];
      SplitSpaceFree(c[1..]);
      assert [[c[0]] + c[1..]] + [c[1..]][1..] == [c];
    }
  }

  lemma {:induction false} NonEmptyAppend(xs: seq<string>, ys: seq<string>)
    ensures NonEmpty(xs + ys) == NonEmpty(xs) + NonEmpty(ys)
  {
    if xs == [] {
      assert xs + ys == ys;
    } else {
      var zs := xs + ys;
      assert zs[0] == xs[0];
      assert zs[1..] == xs[1..] + ys;
      NonEmptyAppend(xs[1..], ys);
      var a, b := NonEmpty(xs[1..]), NonEmpty(ys);
      if xs[0] != "" {
        assert NonEmpty(zs) == [xs[0]] + (a + b);
        assert [xs[0]] + (a + b) == ([xs[0]] + a) + b;
      }
    }
  }

  /** The class names on either side of a space, concatenated. */
  lemma WordsAtSpace(a: string, b: string)
    ensures Words(a + " " + b) == Words(a) + Words(b)
  {
    SplitAtSpace(a, b);
    NonEmptyAppend(Split(a), Split(b));
  }

  lemma WordsOfToken(c: string)
    requires IsToken(c)
    ensures Words(c) == [c]
  {
    assert ' ' !in c;
    SplitSpaceFree(c);
  }

  lemma WordsAround(a: string, c: string, b: string)
    requires IsToken(c)
    ensures Words(a + (" " + c + " ") + b) == Words(a) + [c] + Words(b)
  {
    var u := c + " " + b;
    assert a + (" " + c + " ") + b == a + " " + u;
    WordsAtSpace(a, u);
    WordsAtSpace(c, b);
    WordsOfToken(c);
  }

  /** Padding with spaces, as hasClass and removeClass do, adds no class name. */
  lemma WordsPadded(s: string)
    ensures Words(" " + s + " ") == Words(s)
  {
    var u := s + " ";
    assert " " + s + " " == "" + " " + u;
    WordsAtSpace("", u);
    assert u == s + " " + "";
    WordsAtSpace(s, "");
  }

  /** Position of the first space of `s`, or |s|. */
  function FirstSpace(s: string): (k: nat)
    ensures k <= |s| && ' ' !in s[..k] && (k < |s| ==> s[k] == ' ')
  {
    if s == [] || s[0] == ' ' then 0
    else
      var k := 1 + FirstSpace(s[1..]);
      assert s[..k] == [s[0]] + s[1..][..k - 1];
      k
  }

  /** An occurrence stays one when text is put in front. */
  lemma OccursShift(pat: string, u: string, v: string, j: int)
    requires Occurs(pat, v, j)
    ensures Occurs(pat, u + v, |u| + j)
  {
    assert (u + v)[|u| + j..|u| + j + |pat|] == v[j..j + |pat|];
  }

  /** " c " occurs at the start of " c " + rest. */
  lemma OccursAtStart(c: string, rest: string)
    ensures Occurs(" " + c + " ", " " + c + " " + rest, 0)
  {
    var pat := " " + c + " ";
    assert (pat + rest)[0..|pat|] == pat;
  }

  /** The first piece of a + " " + b shows up at the start of the padded string. */
  lemma OccursFirstPiece(a: string, b: string)
    ensures Occurs(" " + a + " ", " " + (a + " " + b) + " ", 0)
  {
    OccursAtStart(a, b + " ");
    assert " " + a + " " + (b + " ") == " " + (a + " " + b) + " ";
  }

  /** An occurrence in the padded b is one in the padded a + " " + b. */
  lemma OccursLaterPiece(pat: string, a: string, b: string, j: int)
    requires Occurs(pat, " " + b + " ", j)
    ensures Occurs(pat, " " + (a + " " + b) + " ", |a| + 1 + j)
  {
    OccursShift(pat, " " + a, " " + b + " ", j);
    assert (" " + a) + (" " + b + " ") == " " + (a + " " + b) + " ";
  }

  /** A class name of `s` shows up as " c " in " s ". */
  lemma {:induction false} WordOccurs(s: string, c: string)
    requires IsToken(c)
    ensures c in Words(s) ==> exists j :: Occurs(" " + c + " ", " " + s + " ", j)
    decreases |s|
  {
    var k := FirstSpace(s);
    if c !in Words(s) {
    } else if k == |s| {
      assert c == s by {
        assert s[..k] == s;
        SplitSpaceFree(s);
      }
      OccursAtStart(c, "");
      assert " " + c + " " + "" == " " + s + " ";
    } else {
      var a, b := s[..k], s[k + 1..];
      assert s == a + " " + b;
      assert c == a || c in Words(b) by {
        WordsAtSpace(a, b);
        SplitSpaceFree(a);
      }
      if c == a {
        OccursFirstPiece(a, b);
      } else {
        WordOccurs(b, c);
        var j :| Occurs(" " + c + " ", " " + b + " ", j);
        OccursLaterPiece(" " + c + " ", a, b, j);
      }
    }
  }

  /** An occurrence cuts the text into what is before, the pattern, and what is after. */
  lemma OccursCut(pat: string, t: string, j: int)
    requires Occurs(pat, t, j)
    ensures t == t[..j] + pat + t[j + |pat|..]
  {
    assert t == t[..j] + t[j..j + |pat|] + t[j + |pat|..];
  }

  /** An occurrence of " c " in `t` is a class name of `t`. */
  lemma OccursWord(t: string, c: string, j: int)
    requires IsToken(c) && Occurs(" " + c + " ", t, j)
    ensures c in Words(t)
  {
    OccursCut(" " + c + " ", t, j);
    WordsAround(t[..j], c, t[j + |c| + 2..]);
  }

  /** hasClass is class-name membership, for a single class name. */
  lemma HasClassIsMembership(s: string, c: string)
    requires IsToken(c)
    ensures HasClass(s, c) <==> c in Words(s)
  {
    WordsPadded(s);
    WordOccurs(s, c);
    if HasClass(s, c) {
      var j :| Occurs(" " + c + " ", " " + s + " ", j);
      OccursWord(" " + s + " ", c, j);
    }
  }

  // ---------------------------------------------------------------------------
  // trim
  // ---------------------------------------------------------------------------

  /** Dropping one leading space keeps the class names. */
  lemma WordsDropSpace(s: string)
    requires s != [] && s[0] == ' '
    ensures Words(s) == Words(s[1..])
  {
    assert s == "" + " " + s[1..];
    WordsAtSpace("", s[1..]);
  }

  /** Dropping one trailing space keeps the class names. */
  lemma WordsDropLastSpace(s: string)
    requires s != [] && s[|s| - 1] == ' '
    ensures Words(s) == Words(s[..|s| - 1])
  {
    assert s == s[..|s| - 1] + " " + "";
    WordsAtSpace(s[..|s| - 1], "");
  }

  lemma {:induction false} TrimStartWords(s: string)
    requires SpaceOnly(s)
    ensures Words(TrimStart(s)) == Words(s) && SpaceOnly(TrimStart(s))
  {
    if s != [] && IsWhitespace(s[0]) {
      assert s[0] in s;
      assert forall ch :: ch in s[1..] ==> ch in s;
      WordsDropSpace(s);
      TrimStartWords(s[1..]);
    }
  }

  lemma {:induction false} TrimEndWords(s: string)
    requires SpaceOnly(s)
    ensures Words(TrimEnd(s)) == Words(s) && SpaceOnly(TrimEnd(s))
  {
    if s != [] && IsWhitespace(s[|s| - 1]) {
      assert s[|s| - 1] in s;
      assert forall ch :: ch in s[..|s| - 1] ==> ch in s;
      WordsDropLastSpace(s);
      TrimEndWords(s[..|s| - 1]);
    }
  }

  /** trim only drops spaces, so no class name is lost or gained. */
  lemma TrimWords(s: string)
    requires SpaceOnly(s)
    ensures Words(Trim(s)) == Words(s) && SpaceOnly(Trim(s))
  {
    TrimStartWords(s);
    TrimEndWords(TrimStart(s));
  }

  // ---------------------------------------------------------------------------
  // a class name removed once
  // ---------------------------------------------------------------------------

  /** Removing the first `c` lowers its count by one, when there is one,
      and leaves every other count alone; without a `c` nothing changes. */
  lemma {:induction false} RemoveFirstCount(xs: seq<string>, c: string)
    ensures c !in xs ==> RemoveFirst(xs, c) == xs
    ensures c in xs ==> Count(RemoveFirst(xs, c), c) == Count(xs, c) - 1
    ensures forall w :: w != c ==> Count(RemoveFirst(xs, c), w) == Count(xs, w)
  {
    if xs != [] && xs[0] != c {
      RemoveFirstCount(xs[1..], c);
      var r := RemoveFirst(xs[1..], c);
      assert ([xs[0]] + r)[1..] == r;
      assert xs == [xs[0]] + xs[1..];
    }
  }

  lemma {:induction false} RemoveFirstAt(a: seq<string>, c: string, b: seq<string>)
    requires c !in a
    ensures RemoveFirst(a + [c] + b, c) == a + b
  {
    var x := a + [c] + b;
    if a == [] {
      assert x == [c] + b;
      assert x[1..] == b;
    } else {
      assert x[0] == a[0] && x[1..] == a[1..] + [c] + b;
      RemoveFirstAt(a[1..], c, b);
      var r := a[1..] + b;
      assert RemoveFirst(x, c) == [a[0]] + r;
      assert [a[0]] + r == a + b;
    }
  }

  /** The class names before the first " c " do not include c. */
  lemma NoEarlierWord(p: string, c: string, i: int)
    requires IsToken(c) && FirstOccurrence(" " + c + " ", p, i) && 0 < i
    requires p[0] == ' '
    ensures c !in Words(p[..i])
  {
    var pat := " " + c + " ";
    var m := p[1..i];
    var q := " " + m + " ";
    assert p[..i] == " " + m;
    WordsDropSpace(p[..i]);
    assert (" " + m)[1..] == m;
    assert p[i] == pat[0];
    assert q == p[..i + 1];
    assert |q| == i + 1 && |pat| == |c| + 2;
    forall j | 0 <= j && j + |pat| <= |q|
      ensures !Occurs(pat, q, j)
    {
      assert j < i;
      assert !Occurs(pat, p, j);
      assert q[j..j + |pat|] == p[j..j + |pat|];
    }
    WordOccurs(m, c);
  }

  /** removeClass when " c " does not occur: only the padding is trimmed away. */
  lemma RemoveClassNoMatch(s: string, c: string)
    requires IsToken(c) && SpaceOnly(s)
    requires IndexOf(" " + s + " ", " " + c + " ") == -1
    ensures var q := Trim(ReplaceFirst(" " + s + " ", " " + c + " ", " "));
      Words(q) == RemoveFirst(Words(s), c) && SpaceOnly(q)
  {
    SpaceOnlyPadded(s);
    WordOccurs(s, c);
    WordsPadded(s);
    RemoveFirstCount(Words(s), c);
    TrimWords(" " + s + " ");
  }

  /** removeClass when " c " first occurs at `i`. */
  lemma RemoveClassMatch(s: string, c: string, i: int)
    requires IsToken(c) && SpaceOnly(s)
    requires FirstOccurrence(" " + c + " ", " " + s + " ", i)
    ensures var q := Trim(ReplaceFirst(" " + s + " ", " " + c + " ", " "));
      Words(q) == RemoveFirst(Words(s), c) && SpaceOnly(q)
  {
    var pat, p := " " + c + " ", " " + s + " ";
    var pre, post := p[..i], p[i + |pat|..];
    assert ReplaceFirst(p, pat, " ") == pre + " " + post;
    MatchSplitsWords(s, c, i);
    SpaceOnlyPadded(s);
    SpaceOnlyParts(p, i, i + |pat|);
    RemoveBetween(pre, c, post, Words(s));
  }

  lemma SpaceOnlyPadded(s: string)
    requires SpaceOnly(s)
    ensures SpaceOnly(" " + s + " ")
  {
    assert forall ch :: ch in " " + s + " " ==> ch == ' ' || ch in s;
  }

  lemma SpaceOnlyParts(p: string, i: int, k: int)
    requires SpaceOnly(p) && 0 <= i <= k <= |p|
    ensures SpaceOnly(p[..i]) && SpaceOnly(p[k..])
  {
    assert forall ch :: ch in p[..i] ==> ch in p;
    assert forall ch :: ch in p[k..] ==> ch in p;
  }

  /** The first " c " in " s " sits between the class names before it, none of
      which is c, and the class names after it. */
  lemma MatchSplitsWords(s: string, c: string, i: int)
    requires IsToken(c) && FirstOccurrence(" " + c + " ", " " + s + " ", i)
    ensures var p, pat := " " + s + " ", " " + c + " ";
      var pre, post := p[..i], p[i + |pat|..];
      c !in Words(pre) && Words(s) == Words(pre) + [c] + Words(post)
  {
    var pat, p := " " + c + " ", " " + s + " ";
    var pre, post := p[..i], p[i + |pat|..];
    OccursCut(pat, p, i);
    WordsAround(pre, c, post);
    WordsPadded(s);
    if i > 0 {
      NoEarlierWord(p, c, i);
    } else {
      assert pre == "";
      assert Split(pre) == [""];
    }
  }

  /** Joining what lies around the first c with a space, then trimming,
      leaves the class names without that c. */
  lemma RemoveBetween(pre: string, c: string, post: string, ws: seq<string>)
    requires SpaceOnly(pre) && SpaceOnly(post)
    requires c !in Words(pre) && ws == Words(pre) + [c] + Words(post)
    ensures Words(Trim(pre + " " + post)) == RemoveFirst(ws, c)
    ensures SpaceOnly(Trim(pre + " " + post))
  {
    var q := pre + " " + post;
    WordsAtSpace(pre, post);
    RemoveFirstAt(Words(pre), c, Words(post));
    assert forall ch :: ch in q ==> ch in pre || ch == ' ' || ch in post;
    TrimWords(q);
  }

  /** The className removeClass(el, c) leaves, for one class name c. */
  lemma RemoveClassOne(s: string, c: string)
    requires IsToken(c)
    ensures RemoveAll(" " + s + " ", Split(c)) == ReplaceFirst(" " + s + " ", " " + c + " ", " ")
  {
    assert ' ' !in c;
    SplitSpaceFree(c);
    var cs := Split(c);
    assert cs[..|cs| - 1] == [] && cs[|cs| - 1] == c;
    assert RemoveAll(" " + s + " ", cs[..|cs| - 1]) == " " + s + " ";
  }

  /** removeClass with one class name deletes its first occurrence among the
      class names and keeps every other class name, in order. */
  lemma RemoveClassWords(s: string, c: string)
    requires IsToken(c) && SpaceOnly(s)
    ensures Words(RemoveClassValue(s, c)) == RemoveFirst(Words(s), c)
    ensures SpaceOnly(RemoveClassValue(s, c))
  {
    RemoveClassOne(s, c);
    ReplaceWords(s, c);
  }

  /** The class names left once the first " c " of " s " is replaced by " "
      and the result trimmed. */
  lemma ReplaceWords(s: string, c: string)
    requires IsToken(c) && SpaceOnly(s)
    ensures var q := Trim(ReplaceFirst(" " + s + " ", " " + c + " ", " "));
      Words(q) == RemoveFirst(Words(s), c) && SpaceOnly(q)
  {
    var p, pat := " " + s + " ", " " + c + " ";
    var i := IndexOf(p, pat);
    if i == -1 {
      RemoveClassNoMatch(s, c);
    } else {
      RemoveClassMatch(s, c, i);
    }
  }

  /** A class name that occurs at most once is gone after removeClass, and
      every other class name keeps its number of occurrences. */
  lemma RemoveClassDeletes(s: string, c: string)
    requires IsToken(c) && SpaceOnly(s) && Count(Words(s), c) <= 1
    ensures !HasClass(RemoveClassValue(s, c), c)
    ensures forall w :: w != c ==> Count(Words(RemoveClassValue(s, c)), w) == Count(Words(s), w)
  {
    RemoveClassWords(s, c);
    RemoveFirstCount(Words(s), c);
    HasClassIsMembership(RemoveClassValue(s, c), c);
  }

  /** A duplicated class name survives one removeClass. */
  lemma RemoveClassKeepsDuplicate(s: string, c: string)
    requires IsToken(c) && SpaceOnly(s) && Count(Words(s), c) >= 2
    ensures HasClass(RemoveClassValue(s, c), c)
  {
    RemoveClassWords(s, c);
    RemoveFirstCount(Words(s), c);
    HasClassIsMembership(RemoveClassValue(s, c), c);
  }

  /** "a a" still has "a" after removeClass(_, "a"). */
  lemma DuplicateSurvivesRemoval()
    ensures HasClass(RemoveClassValue("a a", "a"), "a")
  {
    assert "a a" == "a" + " " + "a";
    WordsAtSpace("a", "a");
    WordsOfToken("a");
    RemoveClassKeepsDuplicate("a a", "a");
  }

  /** With no duplicates, every class name occurs at most once. */
  lemma {:induction false} NoDuplicatesCount(xs: seq<string>, w: string)
    requires NoDuplicates(xs)
    ensures Count(xs, w) <= 1
  {
    if xs != [] {
      NoDuplicatesCount(xs[1..], w);
      assert xs[0] !in xs[1..];
    }
  }

  /** Removing one element keeps a sequence free of duplicates. */
  lemma {:induction false} RemoveFirstNoDuplicates(xs: seq<string>, c: string)
    requires NoDuplicates(xs)
    ensures NoDuplicates(RemoveFirst(xs, c))
  {
    if xs != [] && xs[0] != c {
      RemoveFirstNoDuplicates(xs[1..], c);
      RemoveFirstCount(xs[1..], c);
      var r := RemoveFirst(xs[1..], c);
      assert xs[0] !in xs[1..];
      assert Count(r, xs[0]) == Count(xs[1..], xs[0]);
      assert ([xs[0]] + r)[1..] == r;
    }
  }

  /** On a well-formed class string removeClass always clears the class and
      keeps the string well formed. */
  lemma RemoveClassWellFormed(s: string, c: string)
    requires IsToken(c) && WellFormed(s)
    ensures !HasClass(RemoveClassValue(s, c), c) && WellFormed(RemoveClassValue(s, c))
  {
    NoDuplicatesCount(Words(s), c);
    RemoveClassWords(s, c);
    RemoveClassDeletes(s, c);
    RemoveFirstNoDuplicates(Words(s), c);
  }

  /** removeClass of a class the string lacks keeps its class names. */
  lemma RemoveClassAbsentKeepsWords(s: string, c: string)
    requires IsToken(c) && SpaceOnly(s) && !HasClass(s, c)
    ensures Words(RemoveClassValue(s, c)) == Words(s)
  {
    HasClassIsMembership(s, c);
    RemoveClassWords(s, c);
    RemoveFirstCount(Words(s), c);
  }

  // ---------------------------------------------------------------------------
  // addClass and toggleClass with one class name
  // ---------------------------------------------------------------------------

  /** The className addClass(el, c) leaves, for one class name c. */
  lemma AddClassOne(s: string, c: string)
    requires IsToken(c)
    ensures AddClassValue(s, c) == AddOne(s, c)
  {
    assert ' ' !in c;
    SplitSpaceFree(c);
    var cs := Split(c);
    assert cs[..|cs| - 1] == [] && cs[|cs| - 1] == c;
    assert AddAll(s, cs[..|cs| - 1]) == s;
  }

  /** addClass with one class name: afterwards the class is present; the
      string is unchanged when it already was, and is `s + " " + c` otherwise;
      no duplicate class name is introduced. */
  lemma AddClassToken(s: string, c: string)
    requires IsToken(c)
    ensures HasClass(AddClassValue(s, c), c)
    ensures HasClass(s, c) ==> AddClassValue(s, c) == s
    ensures !HasClass(s, c) ==> AddClassValue(s, c) == s + " " + c
    ensures Words(AddClassValue(s, c)) == if c in Words(s) then Words(s) else Words(s) + [c]
    ensures NoDuplicates(Words(s)) ==> NoDuplicates(Words(AddClassValue(s, c)))
    ensures SpaceOnly(s) ==> SpaceOnly(AddClassValue(s, c))
  {
    AddClassOne(s, c);
    HasClassIsMembership(s, c);
    WordsAtSpace(s, c);
    WordsOfToken(c);
    HasClassIsMembership(AddClassValue(s, c), c);
  }

  /** toggleClass flips membership and keeps the string well formed. */
  lemma ToggleClassFlips(s: string, c: string)
    requires IsToken(c) && WellFormed(s)
    ensures HasClass(ToggleClassValue(s, c), c) == !HasClass(s, c)
    ensures WellFormed(ToggleClassValue(s, c))
  {
    if HasClass(s, c) {
      RemoveClassWellFormed(s, c);
    } else {
      AddClassToken(s, c);
    }
  }

  /** toggleClass twice restores membership; starting from a string without
      the class, it restores the class names exactly. */
  lemma ToggleClassTwice(s: string, c: string)
    requires IsToken(c) && WellFormed(s)
    ensures HasClass(ToggleClassValue(ToggleClassValue(s, c), c), c) == HasClass(s, c)
    ensures !HasClass(s, c) ==> Words(ToggleClassValue(ToggleClassValue(s, c), c)) == Words(s)
  {
    ToggleClassFlips(s, c);
    ToggleClassFlips(ToggleClassValue(s, c), c);
    if !HasClass(s, c) {
      var t := ToggleClassValue(s, c);
      AddClassToken(s, c);
      HasClassIsMembership(s, c);
      RemoveClassWords(t, c);
      RemoveFirstAt(Words(s), c, []);
      assert Words(s) + [c] + [] == Words(s) + [c];
      assert Words(s) + [] == Words(s);
    }
  }

  /** Without the no-duplicates condition toggling twice can lose the class:
      "a a" becomes "a" and then "". */
  lemma ToggleTwiceLosesDuplicate()
    ensures !HasClass(ToggleClassValue(ToggleClassValue("a a", "a"), "a"), "a")
  {
    assert "a a" == "a" + " " + "a";
    WordsAtSpace("a", "a");
    WordsOfToken("a");
    HasClassIsMembership("a a", "a");
    RemoveClassWords("a a", "a");
    var t := RemoveClassValue("a a", "a");
    assert Words(t) == ["a"];
    HasClassIsMembership(t, "a");
    RemoveClassWords(t, "a");
    HasClassIsMembership(RemoveClassValue(t, "a"), "a");
  }
}
