/** The few Go `strings` operations the launcher relies on, over `seq<char>`. */
module StringUtil {
  import opened Wrappers

  /** strings.HasPrefix */
  predicate HasPrefix(s: string, p: string) {
    |p| <= |s| && s[..|p|] == p
  }

  /** strings.TrimPrefix: removes `p` once from the front of `s`, if it is there. */
  function TrimPrefix(s: string, p: string): (r: string)
    ensures HasPrefix(s, p) ==> p + r == s
    ensures !HasPrefix(s, p) ==> r == s
  {
    if HasPrefix(s, p) then s[|p|..] else s
  }

  /** strings.Contains: `sub` occurs in `s` at some offset. */
  predicate Contains(s: string, sub: string)
    decreases |s|
  {
    HasPrefix(s, sub) || (|s| > 0 && Contains(s[1..], sub))
  }

  /** Whatever comes before it, a string contains its own suffix. */
  lemma {:induction false} ContainsSuffix(s: string, t: string)
    ensures Contains(s + t, t)
  {
    if s == [] {
      assert s + t == t;
      assert (s + t)[..|t|] == t;
    } else {
      assert (s + t)[1..] == s[1..] + t;
      ContainsSuffix(s[1..], t);
    }
  }

  /** The position of the first `c` in `s`, if any. */
  function IndexOf(s: string, c: char): (r: Option<nat>)
    ensures r.Some? ==> r.value < |s| && s[r.value] == c && c !in s[..r.value]
    ensures r.None? <==> c !in s
  {
    if s == [] then None
    else if s[0] == c then Some(0)
    else
      match IndexOf(s[1..], c)
      case None => None
      case Some(i) =>
        assert s[..i + 1] == [s[0]] + s[1..][..i];
        Some(i + 1)
  }

  /**
   * strings.SplitN(s, "=", 2) when it yields two parts: the key before the
   * first '=' and the value after it; None when `s` has no '='.
   */
  function SplitEnv(s: string): (r: Option<(string, string)>)
    ensures r.Some? ==> s == r.value.0 + "=" + r.value.1 && '=' !in r.value.0
    ensures r.None? <==> '=' !in s
  {
    match IndexOf(s, '=')
    case None => None
    case Some(i) =>
      assert s == s[..i] + "=" + s[i + 1..];
      Some((s[..i], s[i + 1..]))
  }

  /** Splitting a joined KEY=VALUE entry gives back its parts. */
  lemma SplitEnvOfJoin(k: string, v: string)
    requires '=' !in k
    ensures SplitEnv(k + "=" + v) == Some((k, v))
  {
    var s := k + "=" + v;
    assert s[|k|] == '=';
    var r := SplitEnv(s);
    var k', v' := r.value.0, r.value.1;
    assert k' == s[..|k|] == k;
    assert v' == s[|k| + 1..] == v;
  }

  /** Two '='-free keys that both prefix one entry, each followed by '=', are equal. */
  lemma KeyPrefixUnique(e: string, k1: string, k2: string)
    requires '=' !in k1 && '=' !in k2
    requires HasPrefix(e, k1 + "=") && HasPrefix(e, k2 + "=")
    ensures k1 == k2
  {
    assert e[..|k1|] == k1 && e[|k1|] == '=';
    assert e[..|k2|] == k2 && e[|k2|] == '=';
  }
}
