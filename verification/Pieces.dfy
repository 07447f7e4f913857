/** Cutting sequences at a separator and putting the pieces together again. */
module Pieces {

  /** The pieces between separators; never empty. */
  function SplitAll<T(==)>(s: seq<T>, sep: T): (pieces: seq<seq<T>>)
    ensures pieces != []
  {
    if s == [] then [[]]
    else
      var rest := SplitAll(s[1..], sep);
      if s[0] == sep then [[]] + rest else [[s[0]] + rest[0]] + rest[1..]
  }

  function Join<T>(pieces: seq<seq<T>>, sep: T): seq<T> {
    if |pieces| == 0 then []
    else if |pieces| == 1 then pieces[0]
    else pieces[0] + [sep] + Join(pieces[1..], sep)
  }

  predicate Contains<T(==)>(s: seq<T>, part: seq<T>) {
    |part| <= |s| && (part <= s || (s != [] && Contains(s[1..], part)))
  }

  /** Without a final `x`. */
  function StripLast<T(==)>(s: seq<T>, x: T): seq<T> {
    if s != [] && s[|s| - 1] == x then s[..|s| - 1] else s
  }

  lemma {:induction false} SplitStep<T>(piece: seq<T>, sep: T, rest: seq<T>)
    requires sep !in piece
    ensures SplitAll(piece + [sep] + rest, sep) == [piece] + SplitAll(rest, sep)
  {
    var all := piece + [sep] + rest;
    if piece == [] {
      assert all[1..] == rest;
    } else {
      assert all[1..] == piece[1..] + [sep] + rest;
      SplitStep(piece[1..], sep, rest);
      assert piece == [piece[0]] + piece[1..];
      assert ([piece[1..]] + SplitAll(rest, sep))[1..] == SplitAll(rest, sep);
    }
  }

  lemma {:induction false} SplitWhole<T>(piece: seq<T>, sep: T)
    requires sep !in piece
    ensures SplitAll(piece, sep) == [piece]
  {
    if piece != [] {
      SplitWhole(piece[1..], sep);
      assert piece == [piece[0]] + piece[1..];
    }
  }

  lemma JoinOne<T>(piece: seq<T>, sep: T)
    ensures Join([piece], sep) == piece
  {
  }

  lemma JoinStep<T>(first: seq<T>, sep: T, rest: seq<seq<T>>)
    requires rest != []
    ensures Join([first] + rest, sep) == first + [sep] + Join(rest, sep)
  {
    assert ([first] + rest)[1..] == rest;
  }

  /** A longer first piece makes a longer whole. */
  lemma JoinGrows<T>(x: T, first: seq<T>, rest: seq<seq<T>>, sep: T)
    ensures Join([[x] + first] + rest, sep) == [x] + Join([first] + rest, sep)
  {
    hide Join;
    if rest == [] {
      JoinOne(first, sep);
      JoinOne([x] + first, sep);
      assert [[x] + first] + rest == [[x] + first] && [first] + rest == [first];
    } else {
      JoinStep(first, sep, rest);
      JoinStep([x] + first, sep, rest);
      assert [x] + first + [sep] + Join(rest, sep) == [x] + (first + [sep] + Join(rest, sep));
    }
  }

  /** Splitting loses nothing, so different sequences split differently. */
  lemma {:induction false} JoinSplit<T>(s: seq<T>, sep: T)
    ensures Join(SplitAll(s, sep), sep) == s
  {
    if s != [] {
      JoinSplit(s[1..], sep);
      var rest := SplitAll(s[1..], sep);
      if s[0] == sep {
        JoinStep([], sep, rest);
      } else {
        JoinGrows(s[0], rest[0], rest[1..], sep);
        assert [rest[0]] + rest[1..] == rest;
      }
      assert s == [s[0]] + s[1..];
    }
  }

  lemma {:induction false} PiecesAreWhole<T>(s: seq<T>, sep: T)
    ensures forall p <- SplitAll(s, sep) :: sep !in p
  {
    if s != [] {
      PiecesAreWhole(s[1..], sep);
      var rest := SplitAll(s[1..], sep);
      assert sep !in rest[0];
      forall p <- SplitAll(s, sep) ensures sep !in p {
        if s[0] != sep && p != [s[0]] + rest[0] {
          assert p in rest[1..];
        }
      }
    }
  }

  lemma {:induction false} SplitJoin<T>(pieces: seq<seq<T>>, sep: T)
    requires pieces != [] && forall p <- pieces :: sep !in p
    ensures SplitAll(Join(pieces, sep), sep) == pieces
  {
    if |pieces| == 1 {
      SplitWhole(pieces[0], sep);
    } else {
      SplitJoin(pieces[1..], sep);
      SplitStep(pieces[0], sep, Join(pieces[1..], sep));
    }
  }

  lemma {:induction false} JoinAppend<T>(a: seq<seq<T>>, b: seq<seq<T>>, sep: T)
    requires a != [] && b != []
    ensures Join(a + b, sep) == Join(a, sep) + [sep] + Join(b, sep)
  {
    hide Join;
    var first, rest := a[0], a[1..];
    assert a == [first] + rest;
    if rest == [] {
      JoinOne(first, sep);
      JoinStep(first, sep, b);
      assert a == [first];
    } else {
      JoinAppend(rest, b, sep);
      JoinStep(first, sep, rest);
      JoinStep(first, sep, rest + b);
      assert [first] + (rest + b) == a + b;
    }
  }

  lemma JoinLast<T>(init: seq<seq<T>>, last: seq<T>, sep: T)
    requires init != []
    ensures Join(init + [last], sep) == Join(init, sep) + [sep] + last
  {
    hide Join;
    JoinAppend(init, [last], sep);
    JoinOne(last, sep);
  }

  /** A part is contained exactly when it stands somewhere. */
  lemma {:induction false} ContainsExactly<T>(s: seq<T>, part: seq<T>)
    ensures Contains(s, part) <==> exists i | 0 <= i <= |s| :: part <= s[i..]
  {
    assert s[0..] == s;
    if s == [] {
    } else {
      ContainsExactly(s[1..], part);
      if i :| 0 <= i <= |s[1..]| && part <= s[1..][i..] {
        assert s[1..][i..] == s[i + 1..];
      }
      if i :| 0 < i <= |s| && part <= s[i..] {
        assert s[1..][i - 1..] == s[i..];
      }
    }
  }
}
