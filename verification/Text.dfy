/** Options and the few string operations that several services lean on. */
module Text {

  datatype Option<+T> = None | Some(value: T)

  /** The last position of a character, or -1 when it does not occur. */
  function LastIndexOf(s: string, c: char): (i: int)
    ensures -1 <= i < |s|
    ensures i >= 0 ==> s[i] == c
    ensures forall j :: i < j < |s| ==> s[j] != c
  {
    if s == "" then -1
    else if s[|s| - 1] == c then |s| - 1
    else LastIndexOf(s[..|s| - 1], c)
  }

  /** The parts between separators; a string without the separator is one part. */
  function Split(s: string, c: char): (parts: seq<string>)
    ensures |parts| >= 1
    decreases |s|
  {
    var i := LastIndexOf(s, c);
    if i < 0 then [s] else Split(s[..i], c) + [s[i + 1..]]
  }

  /** Any position of c with none behind it is the last one. */
  lemma LastIndexIs(s: string, c: char, i: nat)
    requires i < |s| && s[i] == c && c !in s[i + 1..]
    ensures LastIndexOf(s, c) == i
  {
    assert forall j :: i < j < |s| ==> s[j] == s[i + 1..][j - i - 1];
  }

  lemma LastIndexSnoc(head: string, c: char, last: string)
    requires c !in last
    ensures LastIndexOf(head + [c] + last, c) == |head|
  {
    var s := head + [c] + last;
    assert s[|head| + 1..] == last;
    LastIndexIs(s, c, |head|);
  }

  /** A string ends as the last of its parts does. */
  lemma LastPart(s: string, c: char) returns (part: string)
    requires s != "" && s[|s| - 1] != c
    ensures part in Split(s, c) && part != "" && s[|s| - 1] in part
  {
    part := s;
    if c in s {
      var head;
      head, part := CutLast(s, c);
      SplitSnoc(head, c, part);
      hide Split, LastIndexOf;
      assert s[|s| - 1] == part[|part| - 1];
      assert (Split(head, c) + [part])[|Split(head, c)|] == part;
    } else {
      CleanSplit(s, c);
      hide Split, LastIndexOf;
      assert [s][0] == s;
    }
  }

  /** Appending a separator and a clean part adds exactly that part. */
  lemma SplitSnoc(head: string, c: char, last: string)
    requires c !in last
    ensures Split(head + [c] + last, c) == Split(head, c) + [last]
  {
    var s := head + [c] + last;
    LastIndexSnoc(head, c, last);
    hide LastIndexOf;
    assert s[|head| + 1..] == last && s[..|head|] == head;
  }

  /** Every string with the separator is a head and a clean last part. */
  lemma CutLast(s: string, c: char) returns (head: string, last: string)
    requires c in s
    ensures s == head + [c] + last && c !in last
  {
    var i := LastIndexOf(s, c);
    head, last := s[..i], s[i + 1..];
  }

  lemma CleanSplit(s: string, c: char)
    requires c !in s
    ensures Split(s, c) == [s]
  {
  }

  lemma Regroup(a: string, front: string, sep: string, last: string)
    ensures a + (front + sep + last) == (a + front) + sep + last
  {
  }

  lemma Associate<T>(a: seq<T>, b: seq<T>, c: seq<T>)
    ensures (a + b) + c == a + (b + c)
  {
  }

  /** The parts of two strings joined by a separator are the parts of both. */
  lemma {:induction false} SplitSum(a: string, c: char, b: string)
    ensures Split(a + [c] + b, c) == Split(a, c) + Split(b, c)
    decreases |b|
  {
    if c in b {
      var front, last := CutLast(b, c);
      hide Split, LastIndexOf;
      SplitSum(a, c, front);
      SplitSnoc(a + [c] + front, c, last);
      SplitSnoc(front, c, last);
      Regroup(a + [c], front, [c], last);
      Associate(Split(a, c), Split(front, c), [last]);
    } else {
      CleanSplit(b, c);
      SplitSnoc(a, c, b);
      hide Split, LastIndexOf;
    }
  }

  /** The white space characters of .NET strings. */
  predicate IsWhiteSpace(c: char): (white: bool)
    ensures c in {' ', '\t', '\n', '\r'} ==> white
    ensures '!' <= c <= '~' ==> !white
  {
    || '\U{9}' <= c <= '\U{D}' || c == ' ' || c == '\U{85}' || c == '\U{A0}' || c == '\U{1680}'
    || '\U{2000}' <= c <= '\U{200A}' || c == '\U{2028}' || c == '\U{2029}' || c == '\U{202F}'
    || c == '\U{205F}' || c == '\U{3000}'
  }

  /** Missing, empty or white space only. */
  predicate Blank(s: Option<string>) {
    s.None? || forall c | c in s.value :: IsWhiteSpace(c)
  }

  function TrimStart(s: string): string {
    if s != "" && IsWhiteSpace(s[0]) then TrimStart(s[1..]) else s
  }

  function TrimEnd(s: string): string {
    if s != "" && IsWhiteSpace(s[|s| - 1]) then TrimEnd(s[..|s| - 1]) else s
  }

  function Trim(s: string): string {
    TrimEnd(TrimStart(s))
  }

  /** Trimming takes white space off both ends, and all of it. */
  lemma TrimIs(s: string) returns (front: string, back: string)
    ensures s == front + Trim(s) + back
    ensures forall c :: c in front + back ==> IsWhiteSpace(c)
    ensures Trim(s) != "" ==> !IsWhiteSpace(Trim(s)[0]) && !IsWhiteSpace(Trim(s)[|Trim(s)| - 1])
  {
    hide IsWhiteSpace;
    front := TrimStartIs(s);
    back := TrimEndIs(TrimStart(s));
    assert Trim(s) != "" ==> TrimStart(s)[0] == Trim(s)[0];
  }

  lemma {:induction false} TrimStartIs(s: string) returns (front: string)
    ensures s == front + TrimStart(s) && forall c :: c in front ==> IsWhiteSpace(c)
    ensures TrimStart(s) != "" ==> !IsWhiteSpace(TrimStart(s)[0])
  {
    hide IsWhiteSpace;
    front := "";
    if s != "" && IsWhiteSpace(s[0]) {
      front := TrimStartIs(s[1..]);
      assert s == [s[0]] + s[1..];
      front := [s[0]] + front;
    }
  }

  lemma {:induction false} TrimEndIs(s: string) returns (back: string)
    ensures s == TrimEnd(s) + back && forall c :: c in back ==> IsWhiteSpace(c)
    ensures TrimEnd(s) != "" ==> !IsWhiteSpace(TrimEnd(s)[|TrimEnd(s)| - 1])
  {
    hide IsWhiteSpace;
    back := "";
    if s != "" && IsWhiteSpace(s[|s| - 1]) {
      back := TrimEndIs(s[..|s| - 1]);
      assert s == s[..|s| - 1] + [s[|s| - 1]];
      back := back + [s[|s| - 1]];
    }
  }

  function Upper(c: char): char {
    if 'a' <= c <= 'z' then ((c as int) - 32) as char else c
  }

  function ToUpper(s: string): string {
    seq(|s|, i requires 0 <= i < |s| => Upper(s[i]))
  }

  /** Equality up to the case of ASCII letters. */
  predicate EqualsIgnoreCase(a: string, b: string) {
    ToUpper(a) == ToUpper(b)
  }

  /** Two characters that are the same, or the small and the capital form of one letter. */
  ghost predicate SameLetter(a: char, b: char) {
    || a == b
    || ('a' <= a <= 'z' && a as int == b as int + 32)
    || ('a' <= b <= 'z' && b as int == a as int + 32)
  }

  lemma IgnoreCaseIff(a: string, b: string)
    ensures EqualsIgnoreCase(a, b) <==> |a| == |b| && forall i :: 0 <= i < |a| ==> SameLetter(a[i], b[i])
  {
    if |a| == |b| {
      assert |ToUpper(a)| == |ToUpper(b)| == |a|;
      forall i | 0 <= i < |a| ensures ToUpper(a)[i] == ToUpper(b)[i] <==> SameLetter(a[i], b[i]) {
      }
    } else {
      assert |ToUpper(a)| != |ToUpper(b)|;
    }
  }

  function Or(a: Option<string>, b: string): string {
    if a.Some? then a.value else b
  }
}
