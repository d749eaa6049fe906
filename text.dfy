/** The few std::string operations the codec relies on, over `seq<char>`:
    find, find_last_of, substr, the erase/remove idiom and upper-casing. */
module Text {

  datatype Option<T> = None | Some(value: T)

  /** Index of the first occurrence of c in s (std::string::find). */
  function FirstIndex(s: string, c: char): (r: nat)
    requires c in s
    ensures r < |s| && s[r] == c
    ensures forall i | 0 <= i < r :: s[i] != c
  {
    if s[0] == c then 0 else 1 + FirstIndex(s[1..], c)
  }

  /** The first occurrence is the one with no occurrence before it. */
  lemma {:induction false} FirstIndexAt(s: string, c: char, i: nat)
    requires i < |s| && s[i] == c && forall j | 0 <= j < i :: s[j] != c
    ensures FirstIndex(s, c) == i
  {
    if i > 0 {
      FirstIndexAt(s[1..], c, i - 1);
    }
  }

  /** std::string::find with npos as None. */
  function IndexOf(s: string, c: char): (r: Option<nat>)
    ensures r.None? <==> c !in s
    ensures r.Some? ==> r.value == FirstIndex(s, c)
  {
    if c in s then Some(FirstIndex(s, c)) else None
  }

  /** Index of the last occurrence of c in s (std::string::find_last_of). */
  function LastIndex(s: string, c: char): (r: nat)
    requires c in s
    ensures r < |s| && s[r] == c
    ensures forall i | r < i < |s| :: s[i] != c
  {
    if s[|s| - 1] == c then |s| - 1 else LastIndex(s[..|s| - 1], c)
  }

  function LastIndexOf(s: string, c: char): (r: Option<nat>)
    ensures r.None? <==> c !in s
    ensures r.Some? ==> r.value == LastIndex(s, c)
  {
    if c in s then Some(LastIndex(s, c)) else None
  }

  /** s with every occurrence of c taken out, the rest in order
      (s.erase(std::remove(s.begin(), s.end(), c), s.end())). */
  function RemoveAll(s: string, c: char): (r: string)
    ensures |r| <= |s|
    ensures c !in r
    ensures forall x | x in r :: x in s
    ensures r == [] <==> forall i | 0 <= i < |s| :: s[i] == c
  {
    if s == [] then []
    else if s[0] == c then RemoveAll(s[1..], c)
    else [s[0]] + RemoveAll(s[1..], c)
  }

  lemma {:induction false} RemoveAllAppend(s: string, t: string, c: char)
    ensures RemoveAll(s + t, c) == RemoveAll(s, c) + RemoveAll(t, c)
  {
    if s != [] {
      assert (s + t)[1..] == s[1..] + t;
      RemoveAllAppend(s[1..], t, c);
    } else {
      assert s + t == t;
    }
  }

  lemma {:induction false} RemoveAllAbsent(s: string, c: char)
    requires c !in s
    ensures RemoveAll(s, c) == s
  {
    if s != [] {
      RemoveAllAbsent(s[1..], c);
      assert s == [s[0]] + s[1..];
    }
  }

  /** Taking out the only occurrence of c joins what lies on either side. */
  lemma RemoveAllSingle(a: string, b: string, c: char)
    requires c !in a && c !in b
    ensures RemoveAll(a + [c] + b, c) == a + b
  {
    var removed := RemoveAll([c], c);
    assert [c][1..] == [];
    assert removed == [];
    RemoveAllAppend(a, [c], c);
    RemoveAllAbsent(a, c);
    assert RemoveAll(a + [c], c) == a;
    RemoveAllAppend(a + [c], b, c);
    RemoveAllAbsent(b, c);
  }

  /** s.substr(pos, len): at most len characters from pos on. */
  function Substring(s: string, pos: nat, len: nat): (r: string)
    requires pos <= |s|
    ensures |r| <= len && pos + |r| <= |s| && r == s[pos..pos + |r|]
    ensures pos + len <= |s| ==> |r| == len
    ensures pos + len > |s| ==> |r| == |s| - pos
  {
    if pos + len <= |s| then s[pos..pos + len] else s[pos..]
  }

  /** n copies of c. */
  function Repeat(c: char, n: nat): (r: string)
    ensures |r| == n && forall i | 0 <= i < n :: r[i] == c
  {
    seq(n, _ => c)
  }

  /** ::toupper on one character: ASCII letters only. */
  function UpperChar(c: char): (u: char)
    ensures 'a' <= c <= 'z' ==> 'A' <= u <= 'Z' && u as int == c as int - 32
    ensures !('a' <= c <= 'z') ==> u == c
  {
    if 'a' <= c <= 'z' then (c as int - 32) as char else c
  }

  /** std::transform(s.begin(), s.end(), s.begin(), ::toupper). */
  function ToUpper(s: string): (r: string)
    ensures |r| == |s| && forall i | 0 <= i < |s| :: r[i] == UpperChar(s[i])
  {
    seq(|s|, i requires 0 <= i < |s| => UpperChar(s[i]))
  }
}
