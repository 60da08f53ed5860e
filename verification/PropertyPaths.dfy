/** Dotted property paths as `compareProperties` prints them and as `split('.')` reads them. */
module PropertyPaths {
  import opened Texts

  /** The path printed on the way down: no dot is put behind an empty path. */
  function JoinFrom(path: string, keys: seq<string>): string
    decreases |keys|
  {
    if keys == [] then path
    else JoinFrom(if path == "" then keys[0] else path + "." + keys[0], keys[1..])
  }

  /** One more key comes behind a dot, unless nothing stands in front of it. */
  lemma {:induction false} JoinMore(path: string, keys: seq<string>, k: string)
    ensures JoinFrom(path, []) == path
    ensures JoinFrom(path, keys + [k]) == if JoinFrom(path, keys) == "" then k else JoinFrom(path, keys) + "." + k
    decreases |keys|
  {
    if keys == [] {
      assert [k][1..] == [];
    } else {
      assert (keys + [k])[1..] == keys[1..] + [k];
      JoinMore(if path == "" then keys[0] else path + "." + keys[0], keys[1..], k);
    }
  }

  /** The keys with a dot between any two of them. */
  function Dotted(keys: seq<string>): string
    requires keys != []
  {
    if |keys| == 1 then keys[0] else keys[0] + "." + Dotted(keys[1..])
  }

  /** Joining the parts of a path gives it back. */
  lemma {:induction false} PiecesAreWhole(s: string)
    ensures Dotted(Pieces(s, '.')) == s
  {
    if s != "" {
      PiecesAreWhole(s[1..]);
      var rest := Pieces(s[1..], '.');
      assert s == [s[0]] + s[1..];
      if s[0] == '.' {
        assert ([""] + rest)[1..] == rest;
      } else {
        assert ([[s[0]] + rest[0]] + rest[1..])[1..] == rest[1..];
      }
    }
  }

  function Split(s: string): (parts: seq<string>)
    ensures parts != [] && forall i | 0 <= i < |parts| :: '.' !in parts[i]
    ensures Dotted(parts) == s
  {
    PiecesAreWhole(s);
    Pieces(s, '.')
  }

  ghost predicate DotFree(keys: seq<string>) {
    forall i | 0 <= i < |keys| :: '.' !in keys[i]
  }

  lemma {:induction false} JoinFromIsDotted(path: string, keys: seq<string>)
    requires path != ""
    ensures JoinFrom(path, keys) == Dotted([path] + keys)
    decreases |keys|
  {
    if keys != [] {
      var longer := path + "." + keys[0];
      JoinFromIsDotted(longer, keys[1..]);
      assert ([path] + keys)[1..] == keys;
      assert ([longer] + keys[1..])[1..] == keys[1..];
    }
  }

  lemma {:induction false} JoinIsNoLonger(keys: seq<string>)
    requires keys != []
    ensures |JoinFrom("", keys)| <= |Dotted(keys)|
    ensures keys[0] == "" && |keys| > 1 ==> |JoinFrom("", keys)| < |Dotted(keys)|
    ensures keys[0] != "" || |keys| == 1 ==> JoinFrom("", keys) == Dotted(keys)
  {
    if keys[0] != "" {
      JoinFromIsDotted(keys[0], keys[1..]);
      assert [keys[0]] + keys[1..] == keys;
    } else if |keys| > 1 {
      JoinIsNoLonger(keys[1..]);
    }
  }

  lemma SplitPrefix(k: string, rest: string)
    requires '.' !in k
    ensures Split(k + "." + rest) == [k] + Split(rest)
    ensures Split(k) == [k]
  {
    hide Pieces;
    FirstPiece(k, '.', rest);
  }

  lemma {:induction false} SplitDotted(keys: seq<string>)
    requires keys != [] && DotFree(keys)
    ensures Split(Dotted(keys)) == keys
  {
    if |keys| == 1 {
      SplitPrefix(keys[0], "");
    } else {
      SplitPrefix(keys[0], Dotted(keys[1..]));
      SplitDotted(keys[1..]);
    }
  }

  /**
   A printed path gives back its keys exactly when no key has a dot in it and the path does not
   lead through an empty key at the top.
   */
  lemma PathsReadBack(keys: seq<string>)
    requires keys != []
    ensures Split(JoinFrom("", keys)) == keys <==> DotFree(keys) && (keys[0] != "" || |keys| == 1)
  {
    JoinIsNoLonger(keys);
    if DotFree(keys) && (keys[0] != "" || |keys| == 1) {
      SplitDotted(keys);
    }
  }
}
