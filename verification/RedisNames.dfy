/** How Redis shelves share one flat keyspace: prefix ":" name "." key text. */
module RedisNames {
  import opened Keys
  import opened Wrappers

  datatype Shelf = Shelf(prefix: string, name: string) {
    function ToRedisKey(key: Key): string {
      Join(key.String())
    }

    function Join(text: string): string {
      var result := name + "." + text;
      if |prefix| > 0 then prefix + ":" + result else result
    }

    function FromRedisKey(key: string, like: Key): Option<Key> {
      var dbPrefix := prefix + ":";
      if |prefix| > 0 && !(dbPrefix <= key) then None
      else
        var rest := if |prefix| > 0 then key[|dbPrefix|..] else key;
        var shelfPrefix := name + ".";
        if !(shelfPrefix <= rest) then None else like.FromString(rest[|shelfPrefix|..])
    }
  }

  lemma FromRedisKeyOfJoin(s: Shelf, text: string, like: Key)
    ensures s.FromRedisKey(s.Join(text), like) == like.FromString(text)
  {
    var rest := s.name + "." + text;
    assert rest == (s.name + ".") + text;
    assert rest[|s.name + "."|..] == text;
    if |s.prefix| > 0 {
      assert s.Join(text) == (s.prefix + ":") + rest;
      assert s.Join(text)[|s.prefix + ":"|..] == rest;
    }
  }

  /** Reading back a key that was written: exact for every hash and byte key, and for a number iff below 2^31. */
  lemma RedisKeyRoundTrip(s: Shelf, k: Key, like: Key)
    requires SameType(like, k)
    ensures s.FromRedisKey(s.ToRedisKey(k), like) == Some(k) <==> (k.Uint32Key? ==> k.u < MAX_SIGNED)
    ensures s.FromRedisKey(s.ToRedisKey(k), like) == None <==> (k.Uint32Key? && k.u >= MAX_SIGNED)
  {
    FromRedisKeyOfJoin(s, k.String(), like);
    TextRoundTrip(like, k);
  }

  lemma SameLastDot(m: string, t: string, n: string, u: string)
    requires '.' !in t && '.' !in u && m + "." + t == n + "." + u
    ensures m == n && t == u
  {
    var w := m + "." + t;
    assert w == n + "." + u;
    assert forall i :: |m| < i < |w| ==> w[i] == t[i - |m| - 1];
    assert forall i :: |n| < i < |w| ==> w[i] == u[i - |n| - 1];
    assert w[|m|] == '.' && w[|n|] == '.';
    assert m == w[..|m|] && n == w[..|n|];
    assert t == w[|m| + 1..] && u == w[|n| + 1..];
  }

  /** Under one store prefix a Redis key tells shelf and key text apart, dots in shelf names notwithstanding. */
  lemma RedisKeyInjective(prefix: string, m: string, k: Key, n: string, l: Key)
    ensures Shelf(prefix, m).ToRedisKey(k) == Shelf(prefix, n).ToRedisKey(l) <==> m == n && k.String() == l.String()
  {
    var v, w := Shelf(prefix, m).ToRedisKey(k), Shelf(prefix, n).ToRedisKey(l);
    if v == w {
      if |prefix| > 0 {
        assert v == (prefix + ":") + (m + "." + k.String()) && w == (prefix + ":") + (n + "." + l.String());
        assert v[|prefix| + 1..] == m + "." + k.String() && w[|prefix| + 1..] == n + "." + l.String();
      }
      TextHasNoDot(k);
      TextHasNoDot(l);
      SameLastDot(m, k.String(), n, l.String());
    }
  }

  /** The parts of a Redis key and what stands between them, in a store without and with a prefix. */
  lemma RedisKeyLayout(s: Shelf, k: Key)
    ensures s.prefix == "" ==> s.ToRedisKey(k) == s.name + "." + k.String()
    ensures s.prefix != "" ==> |s.ToRedisKey(k)| > |s.prefix| && s.ToRedisKey(k)[..|s.prefix|] == s.prefix
    ensures s.prefix != "" ==> s.ToRedisKey(k)[|s.prefix|] == ':' && s.ToRedisKey(k)[|s.prefix| + 1..] == s.name + "." + k.String()
  {
    if s.prefix != "" {
      var rest := s.name + "." + k.String();
      var text := s.prefix + ":" + rest;
      assert text == (s.prefix + ":") + rest;
      assert text[..|s.prefix|] == s.prefix && text[|s.prefix| + 1..] == rest;
    }
  }
}
