/**
 * Shell-style matching as `fnmatch.fnmatch(name, pattern)` performs it on POSIX
 * (no case folding): `*` matches any run of characters, `?` any one character,
 * every other character itself.
 */
module Glob {

  function Match(pattern: string, name: string): bool
    decreases |pattern| + |name|
  {
    if pattern == [] then name == []
    else if pattern[0] == '*' then
      Match(pattern[1..], name) || (name != [] && Match(pattern, name[1..]))
    else
      name != [] && (pattern[0] == '?' || pattern[0] == name[0]) && Match(pattern[1..], name[1..])
  }

  predicate IsLiteral(pattern: string)
  {
    forall i :: 0 <= i < |pattern| ==> pattern[i] != '*' && pattern[i] != '?'
  }

  /** A pattern without wildcards matches exactly the name it spells. */
  lemma {:induction false} LiteralMatch(pattern: string, name: string)
    requires IsLiteral(pattern)
    ensures Match(pattern, name) <==> pattern == name
  {
    if pattern != [] && name != [] {
      LiteralMatch(pattern[1..], name[1..]);
      if pattern[0] == name[0] && pattern[1..] == name[1..] {
        assert pattern == [pattern[0]] + pattern[1..];
        assert name == [name[0]] + name[1..];
      }
    }
  }

  /** `*` matches every name, including the empty one. */
  lemma {:induction false} StarMatchesAll(name: string)
    ensures Match("*", name)
  {
    if name != [] {
      StarMatchesAll(name[1..]);
    }
  }

  /** A pattern without `*` only matches names of its own length. */
  lemma {:induction false} StarFreeLength(pattern: string, name: string)
    requires forall i :: 0 <= i < |pattern| ==> pattern[i] != '*'
    requires Match(pattern, name)
    ensures |name| == |pattern|
  {
    if pattern != [] {
      StarFreeLength(pattern[1..], name[1..]);
    }
  }

  /** A leading `*` absorbs any prefix in front of a name the rest of the pattern matches. */
  lemma {:induction false} LeadingStar(pattern: string, prefix: string, name: string)
    requires Match(pattern, name)
    ensures Match("*" + pattern, prefix + name)
    decreases |prefix|
  {
    var p := "*" + pattern;
    assert p[1..] == pattern;
    if prefix == [] {
      assert prefix + name == name;
    } else {
      LeadingStar(pattern, prefix[1..], name);
      assert (prefix + name)[1..] == prefix[1..] + name;
    }
  }
}
