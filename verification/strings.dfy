/** Substring search and newline-terminated concatenation on `string` (= `seq<char>`). */
module Strings {
  import opened Wrappers

  /** `sub` occurs in `s` starting at position `i`. */
  predicate OccursAt(s: string, sub: string, i: int)
  {
    0 <= i && i + |sub| <= |s| && s[i..i + |sub|] == sub
  }

  /** `sub` occurs somewhere in `s`: the declarative meaning of a successful search. */
  ghost predicate Occurs(s: string, sub: string)
  {
    exists i :: OccursAt(s, sub, i)
  }

  /** First position at or after `from` where `sub` occurs in `s`, or `None`. */
  function FindFrom(s: string, sub: string, from: nat): Option<nat>
    decreases |s| - from
  {
    if from + |sub| > |s| then None
    else if s[from..from + |sub|] == sub then Some(from)
    else FindFrom(s, sub, from + 1)
  }

  /** A hit is an occurrence at or after `from` with none between `from` and it;
      a miss means there is no occurrence at or after `from`. */
  lemma {:induction false} FindFromMeaning(s: string, sub: string, from: nat)
    ensures FindFrom(s, sub, from).Some? ==>
      var p := FindFrom(s, sub, from).value;
      from <= p && OccursAt(s, sub, p) && forall j :: from <= j < p ==> !OccursAt(s, sub, j)
    ensures FindFrom(s, sub, from).None? ==> forall j :: from <= j ==> !OccursAt(s, sub, j)
    decreases |s| - from
  {
    if from + |sub| <= |s| && s[from..from + |sub|] != sub {
      FindFromMeaning(s, sub, from + 1);
    }
  }

  /** `std::string::find(sub)`: the first position of `sub` in `s`; `None` stands for `npos`.
      The empty string is found at position 0. */
  function Find(s: string, sub: string): Option<nat>
  {
    FindFrom(s, sub, 0)
  }

  /** `find` returns the leftmost occurrence, and `npos` exactly when there is none. */
  lemma FindMeaning(s: string, sub: string)
    ensures Find(s, sub).Some? ==>
      OccursAt(s, sub, Find(s, sub).value) &&
      forall j :: 0 <= j < Find(s, sub).value ==> !OccursAt(s, sub, j)
    ensures Find(s, sub).None? <==> !Occurs(s, sub)
  {
    FindFromMeaning(s, sub, 0);
  }

  /** `s.find(sub) != npos`. */
  function Contains(s: string, sub: string): bool
  {
    Find(s, sub).Some?
  }

  /** The `find` test succeeds exactly when `sub` occurs in `s`. */
  lemma ContainsMeaning(s: string, sub: string)
    ensures Contains(s, sub) <==> Occurs(s, sub)
  {
    FindMeaning(s, sub);
  }

  /** A pattern holding a character that the text lacks does not occur in it. */
  lemma MissingCharacter(s: string, sub: string, c: char)
    requires c in sub && c !in s
    ensures !Occurs(s, sub)
  {
    var k :| 0 <= k < |sub| && sub[k] == c;
    forall i
      ensures !OccursAt(s, sub, i)
    {
      if 0 <= i && i + |sub| <= |s| {
        assert s[i..i + |sub|][k] == s[i + k] != c;
      }
    }
  }

  /** Each line followed by `'\n'`, in order: what `stream << line << '\n'` accumulates. */
  function Join(lines: seq<string>): (r: string)
    ensures |lines| > 0 ==> |r| > 0 && r[|r| - 1] == '\n'
    ensures |lines| == 0 ==> r == ""
  {
    if |lines| == 0 then ""
    else Join(lines[..|lines| - 1]) + lines[|lines| - 1] + "\n"
  }

  /** Total length of the lines, counting one newline each. */
  function TerminatedLength(lines: seq<string>): nat
  {
    if |lines| == 0 then 0
    else TerminatedLength(lines[..|lines| - 1]) + |lines[|lines| - 1]| + 1
  }

  lemma {:induction false} JoinLength(lines: seq<string>)
    ensures |Join(lines)| == TerminatedLength(lines)
    decreases |lines|
  {
    if |lines| > 0 {
      JoinLength(lines[..|lines| - 1]);
    }
  }

  /** Joining distributes over concatenation of the line sequences. */
  lemma {:induction false} JoinAppend(a: seq<string>, b: seq<string>)
    ensures Join(a + b) == Join(a) + Join(b)
    decreases |b|
  {
    if |b| > 0 {
      var b' := b[..|b| - 1];
      assert (a + b)[..|a + b| - 1] == a + b';
      JoinAppend(a, b');
    } else {
      assert a + b == a;
    }
  }

  /** A newline-free, non-empty pattern absent from every line is absent from their join:
      no occurrence can straddle the newline that ends a line. */
  lemma {:induction false} JoinAvoids(lines: seq<string>, sub: string)
    requires |sub| > 0 && '\n' !in sub
    requires forall k :: 0 <= k < |lines| ==> !Occurs(lines[k], sub)
    ensures !Occurs(Join(lines), sub)
    decreases |lines|
  {
    if |lines| > 0 {
      var init := lines[..|lines| - 1];
      var line := lines[|lines| - 1];
      var j := Join(init);
      JoinAvoids(init, sub);
      var s := Join(lines);
      assert s == j + line + "\n";
      forall i
        ensures !OccursAt(s, sub, i)
      {
        if i < 0 || i + |sub| > |s| {
        } else if i + |sub| <= |j| {
          assert s[i..i + |sub|] == j[i..i + |sub|];
          assert !OccursAt(j, sub, i);
        } else if i < |j| {
          assert s[i..i + |sub|][|j| - 1 - i] == j[|j| - 1] == '\n';
        } else if i + |sub| <= |j| + |line| {
          assert s[i..i + |sub|] == line[i - |j|..i - |j| + |sub|];
          assert !OccursAt(line, sub, i - |j|);
        } else {
          assert s[i..i + |sub|][|sub| - 1] == '\n';
        }
      }
    }
  }
}
