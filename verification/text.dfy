/**
  String helpers the provisioning plan is built from: ASCII upper-casing,
  POSIX path joining, and Python's one-character `split` / `join`.
 */
module Text {

  predicate IsLower(c: char) {
    'a' <= c <= 'z'
  }

  function UpperChar(c: char): char {
    if IsLower(c) then (c as int - 32) as char else c
  }

  /** `str.upper()` restricted to ASCII: letters a-z become A-Z, every other character is kept. */
  function Upper(s: string): (r: string)
    ensures |r| == |s|
    ensures forall i :: 0 <= i < |s| && IsLower(s[i]) ==> r[i] as int == s[i] as int - 32
    ensures forall i :: 0 <= i < |s| && !IsLower(s[i]) ==> r[i] == s[i]
    ensures forall i :: 0 <= i < |r| ==> !IsLower(r[i])
  {
    if s == [] then [] else [UpperChar(s[0])] + Upper(s[1..])
  }

  /** Upper-casing introduces no space. */
  lemma UpperNoSpace(s: string)
    requires ' ' !in s
    ensures ' ' !in Upper(s)
  {
    var r := Upper(s);
    forall i | 0 <= i < |r|
      ensures r[i] != ' '
    {
      assert s[i] != ' ';
    }
  }

  predicate EndsWith(s: string, suffix: string) {
    |suffix| <= |s| && s[|s| - |suffix|..] == suffix
  }

  predicate IsAbsolute(p: string) {
    |p| > 0 && p[0] == '/'
  }

  /** POSIX `os.path.join(a, b)`: an absolute `b` discards `a`; otherwise one
      separator is inserted unless `a` is empty or already ends with one. */
  function PathJoin(a: string, b: string): (r: string)
    ensures EndsWith(r, b)
    ensures IsAbsolute(b) ==> r == b
    ensures !IsAbsolute(b) ==> a <= r
    ensures !IsAbsolute(b) ==> |r| == |a| + |b| + (if a != [] && a[|a| - 1] != '/' then 1 else 0)
    ensures !IsAbsolute(b) && a != [] && a[|a| - 1] != '/' ==> r[|a|] == '/'
  {
    if IsAbsolute(b) then b
    else if a == [] || a[|a| - 1] == '/' then a + b
    else a + "/" + b
  }

  /** Joining onto a non-empty path gives a non-empty path. */
  lemma JoinNonEmpty(a: string, b: string)
    requires a != []
    ensures PathJoin(a, b) != []
  {
  }

  /** A join with a relative, non-empty last component ends with that component's last character. */
  lemma JoinLastChar(a: string, b: string)
    requires b != [] && !IsAbsolute(b)
    ensures PathJoin(a, b) != [] && PathJoin(a, b)[|PathJoin(a, b)| - 1] == b[|b| - 1]
  {
    var r := PathJoin(a, b);
    assert r[|r| - |b|..] == b;
    assert r[|r| - 1] == r[|r| - |b|..][|b| - 1];
  }

  /** Joining a relative component onto a non-empty path leaves a separator just before it. */
  lemma PathJoinSeparates(a: string, b: string)
    requires a != [] && !IsAbsolute(b)
    ensures EndsWith(PathJoin(a, b), "/" + b)
  {
    var r := PathJoin(a, b);
    if a[|a| - 1] == '/' {
      assert r == a[..|a| - 1] + ("/" + b);
    } else {
      assert r == a + ("/" + b);
    }
  }

  /** Joining a relative component onto a non-empty path that does not end in
      `/` inserts exactly one separator. */
  lemma JoinPlain(a: string, b: string)
    requires a != [] && a[|a| - 1] != '/' && !IsAbsolute(b)
    ensures PathJoin(a, b) == a + "/" + b
  {
  }

  lemma ConcatFree(a: string, b: string, c: char)
    requires c !in a && c !in b
    ensures c !in a + b
  {
    forall i | 0 <= i < |a + b|
      ensures (a + b)[i] != c
    {
      if i < |a| {
        assert (a + b)[i] == a[i];
      } else {
        assert (a + b)[i] == b[i - |a|];
      }
    }
  }

  /** Joining adds no character but the separator. */
  lemma PathJoinFree(a: string, b: string, c: char)
    requires c !in a && c !in b && c != '/'
    ensures c !in PathJoin(a, b)
  {
    ConcatFree(a, b, c);
    ConcatFree(a, "/", c);
    ConcatFree(a + "/", b, c);
  }

  /** `os.path.join(a, p0, p1, ...)`, a left fold of `PathJoin`. */
  function PathJoinAll(a: string, parts: seq<string>): string
    decreases |parts|
  {
    if parts == [] then a else PathJoinAll(PathJoin(a, parts[0]), parts[1..])
  }

  lemma JoinAllStep(a: string, part: string, rest: seq<string>)
    ensures PathJoinAll(a, [part] + rest) == PathJoinAll(PathJoin(a, part), rest)
  {
    assert ([part] + rest)[1..] == rest;
  }

  lemma JoinAllTwo(a: string, p0: string, p1: string)
    ensures PathJoinAll(a, [p0, p1]) == PathJoin(PathJoin(a, p0), p1)
  {
    assert [p0, p1] == [p0] + ([p1] + []);
    JoinAllStep(a, p0, [p1] + []);
    JoinAllStep(PathJoin(a, p0), p1, []);
  }

  /** A fold over six components is six nested joins. */
  lemma JoinAllSix(a: string, p0: string, p1: string, p2: string, p3: string, p4: string, p5: string)
    ensures PathJoinAll(a, [p0, p1, p2, p3, p4, p5])
            == PathJoin(PathJoin(PathJoin(PathJoin(PathJoin(PathJoin(a, p0), p1), p2), p3), p4), p5)
  {
    assert [p0, p1, p2, p3, p4, p5] == [p0] + ([p1] + ([p2] + ([p3] + ([p4] + ([p5] + [])))));
    JoinAllStep(a, p0, [p1] + ([p2] + ([p3] + ([p4] + ([p5] + [])))));
    var q0 := PathJoin(a, p0);
    JoinAllStep(q0, p1, [p2] + ([p3] + ([p4] + ([p5] + []))));
    var q1 := PathJoin(q0, p1);
    JoinAllStep(q1, p2, [p3] + ([p4] + ([p5] + [])));
    var q2 := PathJoin(q1, p2);
    JoinAllStep(q2, p3, [p4] + ([p5] + []));
    var q3 := PathJoin(q2, p3);
    JoinAllStep(q3, p4, [p5] + []);
    var q4 := PathJoin(q3, p4);
    JoinAllStep(q4, p5, []);
  }

  /** Python's `s.split(sep)` for a one-character separator: at least one
      field, empty fields kept, no field contains the separator. */
  function Split(s: string, sep: char): (r: seq<string>)
    ensures |r| >= 1
    ensures forall k :: 0 <= k < |r| ==> sep !in r[k]
  {
    if s == [] then [[]]
    else
      var rest := Split(s[1..], sep);
      if s[0] == sep then [[]] + rest
      else [[s[0]] + rest[0]] + rest[1..]
  }

  /** Python's `sep.join(ws)` for a one-character separator. */
  function Intercalate(ws: seq<string>, sep: char): string
  {
    if |ws| == 0 then []
    else if |ws| == 1 then ws[0]
    else ws[0] + [sep] + Intercalate(ws[1..], sep)
  }

  lemma IntercalateCons(w: string, rest: seq<string>, sep: char)
    requires |rest| >= 1
    ensures Intercalate([w] + rest, sep) == w + [sep] + Intercalate(rest, sep)
  {
    assert ([w] + rest)[1..] == rest;
  }

  predicate NoneContains(ws: seq<string>, c: char) {
    forall k :: 0 <= k < |ws| ==> c !in ws[k]
  }

  lemma NoneContainsSnoc(ws: seq<string>, w: string, c: char)
    requires NoneContains(ws, c) && c !in w
    ensures NoneContains(ws + [w], c)
  {
    assert forall k :: 0 <= k < |ws| ==> (ws + [w])[k] == ws[k];
  }

  lemma {:induction false} SplitSingle(w: string, sep: char)
    requires sep !in w
    ensures Split(w, sep) == [w]
    decreases |w|
  {
    if w != [] {
      SplitSingle(w[1..], sep);
      assert [w[0]] + w[1..] == w;
    }
  }

  lemma {:induction false} SplitCons(w: string, sep: char, rest: string)
    requires sep !in w
    ensures Split(w + [sep] + rest, sep) == [w] + Split(rest, sep)
    decreases |w|
  {
    var s := w + [sep] + rest;
    if w == [] {
      assert s[0] == sep && s[1..] == rest;
    } else {
      assert s[0] == w[0] && s[1..] == w[1..] + [sep] + rest;
      SplitCons(w[1..], sep, rest);
      assert [w[0]] + w[1..] == w;
    }
  }

  /** Splitting a joined list gives the list back, provided no element contains the separator. */
  lemma {:induction false} SplitIntercalate(ws: seq<string>, sep: char)
    requires |ws| >= 1
    requires NoneContains(ws, sep)
    ensures Split(Intercalate(ws, sep), sep) == ws
    decreases |ws|
  {
    if |ws| == 1 {
      SplitSingle(ws[0], sep);
    } else {
      SplitIntercalate(ws[1..], sep);
      SplitCons(ws[0], sep, Intercalate(ws[1..], sep));
      assert [ws[0]] + ws[1..] == ws;
    }
  }

  /** Appending one more element appends it after one separator. */
  lemma {:induction false} IntercalateSnoc(ws: seq<string>, sep: char, last: string)
    requires |ws| >= 1
    ensures Intercalate(ws + [last], sep) == Intercalate(ws, sep) + [sep] + last
    decreases |ws|
  {
    if |ws| > 1 {
      assert (ws + [last])[1..] == ws[1..] + [last];
      IntercalateSnoc(ws[1..], sep, last);
    }
  }

  /** A joined list ends with its last element. */
  lemma IntercalateEndsWithLast(ws: seq<string>, sep: char)
    requires |ws| >= 1
    ensures EndsWith(Intercalate(ws, sep), ws[|ws| - 1])
  {
    if |ws| > 1 {
      var init := ws[..|ws| - 1];
      assert init + [ws[|ws| - 1]] == ws;
      IntercalateSnoc(init, sep, ws[|ws| - 1]);
    }
  }
}
