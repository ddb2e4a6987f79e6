/**
 * How git reads a .gitignore pattern that has no `/`: it is matched against
 * the file's base name, and `*` stands for any run of characters. Only `*`
 * and literal characters are modelled, which covers every pattern the
 * advisory names.
 */
module Glob {

  predicate GlobMatch(pattern: string, name: string)
    decreases |pattern| + |name|
  {
    if pattern == [] then name == []
    else if pattern[0] == '*' then
      GlobMatch(pattern[1..], name) || (name != [] && GlobMatch(pattern, name[1..]))
    else name != [] && name[0] == pattern[0] && GlobMatch(pattern[1..], name[1..])
  }

  /** A pattern without `*` matches exactly the name it spells. */
  lemma {:induction false} LiteralMatch(lit: string, name: string)
    requires '*' !in lit
    ensures GlobMatch(lit, name) <==> name == lit
    decreases |lit|
  {
    if lit != [] {
      assert lit[0] != '*';
      LiteralMatch(lit[1..], if name == [] then [] else name[1..]);
      if name != [] && name[0] == lit[0] && name[1..] == lit[1..] {
        assert name == [name[0]] + name[1..];
        assert lit == [lit[0]] + lit[1..];
      }
    }
  }

  /** `*` followed by literal text matches exactly the names ending in that text. */
  lemma {:induction false} StarThenLiteral(lit: string, name: string)
    requires '*' !in lit
    ensures GlobMatch(['*'] + lit, name) <==> |lit| <= |name| && name[|name| - |lit|..] == lit
    decreases |name|
  {
    var pattern := ['*'] + lit;
    assert pattern[0] == '*' && pattern[1..] == lit;
    LiteralMatch(lit, name);
    if name != [] {
      StarThenLiteral(lit, name[1..]);
      if |lit| <= |name| - 1 {
        assert name[1..][|name| - 1 - |lit|..] == name[|name| - |lit|..];
      }
    }
  }
}
