/**
 * The feed URI `gsheets://{spreadsheet_key}/{worksheet_name}`: Python's
 * `str.split` and `parse_gsheets_uri`, which takes the text after the last
 * `//` and keeps the first two `/`-separated pieces of it.
 */
module Uri {
  import opened Wrappers

  /** `sep` occurs in `s` at index `i`. */
  ghost predicate OccursAt(s: string, sep: string, i: int) {
    0 <= i && i + |sep| <= |s| && s[i..i + |sep|] == sep
  }

  /** `sep in s`, Python's substring test. */
  ghost predicate Occurs(s: string, sep: string) {
    exists i :: OccursAt(s, sep, i)
  }

  /**
   * Python's `s.split(sep)` for a non-empty separator: scans left to right and
   * cuts at every non-overlapping occurrence of `sep`.
   */
  function Split(s: string, sep: string): (pieces: seq<string>)
    requires |sep| > 0
    ensures |pieces| >= 1
    decreases |s|
  {
    if |s| < |sep| then [s]
    else if s[..|sep|] == sep then [""] + Split(s[|sep|..], sep)
    else
      var rest := Split(s[1..], sep);
      [[s[0]] + rest[0]] + rest[1..]
  }

  /** Python's `sep.join(pieces)`. */
  function Join(pieces: seq<string>, sep: string): string
    requires |pieces| >= 1
  {
    if |pieces| == 1 then pieces[0] else pieces[0] + sep + Join(pieces[1..], sep)
  }

  lemma JoinConsFirst(x: string, pieces: seq<string>, sep: string)
    requires |pieces| >= 1
    ensures Join([x + pieces[0]] + pieces[1..], sep) == x + Join(pieces, sep)
  {
    var p := [x + pieces[0]] + pieces[1..];
    if |pieces| > 1 {
      assert p[1..] == pieces[1..];
    }
  }

  /** Joining the pieces of a split with the same separator gives back the text. */
  lemma {:induction false} JoinSplit(s: string, sep: string)
    requires |sep| > 0
    ensures Join(Split(s, sep), sep) == s
  {
    if |s| < |sep| {
    } else if s[..|sep|] == sep {
      JoinSplit(s[|sep|..], sep);
      assert Split(s, sep)[1..] == Split(s[|sep|..], sep);
      assert s == s[..|sep|] + s[|sep|..];
    } else {
      var rest := Split(s[1..], sep);
      JoinSplit(s[1..], sep);
      JoinConsFirst([s[0]], rest, sep);
      assert s == [s[0]] + s[1..];
    }
  }

  /** The last piece of a join follows the last separator. */
  lemma {:induction false} JoinLast(pieces: seq<string>, sep: string)
    requires |pieces| >= 2
    ensures Join(pieces, sep) == Join(pieces[..|pieces| - 1], sep) + sep + pieces[|pieces| - 1]
  {
    var n := |pieces|;
    if n > 2 {
      JoinLast(pieces[1..], sep);
      assert pieces[1..][..n - 2] == pieces[..n - 1][1..];
    }
  }

  lemma {:induction false} OccursTail(s: string, sep: string)
    requires |s| >= 1 && !OccursAt(s, sep, 0)
    ensures Occurs(s, sep) <==> Occurs(s[1..], sep)
  {
    if Occurs(s, sep) {
      var i :| OccursAt(s, sep, i);
      assert s[1..][i - 1..i - 1 + |sep|] == s[i..i + |sep|];
      assert OccursAt(s[1..], sep, i - 1);
    }
    if Occurs(s[1..], sep) {
      var i :| OccursAt(s[1..], sep, i);
      assert s[1..][i..i + |sep|] == s[i + 1..i + 1 + |sep|];
      assert OccursAt(s, sep, i + 1);
    }
  }

  /** For a one-character separator, occurrence is membership. */
  lemma OccursChar(s: string, c: char)
    ensures Occurs(s, [c]) <==> c in s
  {
    if c in s {
      var i :| 0 <= i < |s| && s[i] == c;
      assert s[i..i + 1] == [c];
      assert OccursAt(s, [c], i);
    }
    if Occurs(s, [c]) {
      var i :| OccursAt(s, [c], i);
      assert s[i] == s[i..i + 1][0];
    }
  }

  /** A split has two or more pieces exactly when the separator occurs. */
  lemma {:induction false} SplitCount(s: string, sep: string)
    requires |sep| > 0
    ensures |Split(s, sep)| >= 2 <==> Occurs(s, sep)
  {
    if |s| < |sep| {
    } else if s[..|sep|] == sep {
      assert OccursAt(s, sep, 0);
    } else {
      SplitCount(s[1..], sep);
      OccursTail(s, sep);
    }
  }

  /** The first piece of a split is a prefix of the text. */
  lemma {:induction false} SplitFirstPrefix(s: string, sep: string)
    requires |sep| > 0
    ensures |Split(s, sep)[0]| <= |s| && s[..|Split(s, sep)[0]|] == Split(s, sep)[0]
  {
    if |s| < |sep| {
    } else if s[..|sep|] == sep {
    } else {
      SplitFirstPrefix(s[1..], sep);
    }
  }

  /** No piece of a split contains the separator. */
  lemma {:induction false} SplitPiecesFree(s: string, sep: string)
    requires |sep| > 0
    ensures forall p | p in Split(s, sep) :: !Occurs(p, sep)
  {
    if |s| < |sep| {
    } else if s[..|sep|] == sep {
      SplitPiecesFree(s[|sep|..], sep);
    } else {
      var rest := Split(s[1..], sep);
      SplitPiecesFree(s[1..], sep);
      SplitFirstPrefix(s[1..], sep);
      var first := [s[0]] + rest[0];
      assert first == s[..|first|];
      assert rest[0] in rest;
      forall i ensures !OccursAt(first, sep, i) {
        if 0 <= i && i + |sep| <= |first| {
          if i == 0 {
            assert first[..|sep|] == s[..|sep|];
          } else {
            assert first[i..i + |sep|] == rest[0][i - 1..i - 1 + |sep|];
            assert !OccursAt(rest[0], sep, i - 1);
          }
        }
      }
      assert forall p | p in Split(s, sep) :: p == first || p in rest[1..];
    }
  }

  /** Splitting text that does not contain the separator gives the text back. */
  lemma {:induction false} SplitWhole(s: string, sep: string)
    requires |sep| > 0 && !Occurs(s, sep)
    ensures Split(s, sep) == [s]
  {
    if |s| >= |sep| {
      assert !OccursAt(s, sep, 0);
      OccursTail(s, sep);
      SplitWhole(s[1..], sep);
      assert [s[0]] + s[1..] == s;
    }
  }

  /**
   * Text that cannot start a separator before it is cut off as the first
   * piece at the separator that follows it.
   */
  lemma {:induction false} SplitAfter(a: string, sep: string, b: string)
    requires |sep| > 0 && sep[0] !in a
    ensures Split(a + sep + b, sep) == [a] + Split(b, sep)
  {
    var s := a + sep + b;
    if a == [] {
      assert s == sep + b;
      assert s[..|sep|] == sep && s[|sep|..] == b;
    } else {
      assert s[..|sep|][0] == a[0];
      assert s[1..] == a[1..] + sep + b;
      SplitAfter(a[1..], sep, b);
      assert [a[0]] + a[1..] == a;
    }
  }

  /** No occurrence of `sep` starts in `t` before index `n`. */
  ghost predicate NoOccurrenceBefore(t: string, sep: string, n: int) {
    forall k | 0 <= k < n :: !OccursAt(t, sep, k)
  }

  /**
   * `pieces` cut `s` at leftmost occurrences of `sep`, scanning left to right:
   * they join back to `s`, and no occurrence of `sep` starts inside a piece
   * (counting from that piece onward), so no earlier cut was skipped.
   */
  ghost predicate LeftmostCuts(pieces: seq<string>, sep: string, s: string) {
    && |pieces| >= 1
    && Join(pieces, sep) == s
    && forall i | 0 <= i < |pieces| :: NoOccurrenceBefore(Join(pieces[i..], sep), sep, |pieces[i]|)
  }

  lemma SliceShift(s: string, a: nat, b: nat)
    requires 1 <= a <= b <= |s|
    ensures s[a..b] == s[1..][a - 1..b - 1]
  {
    assert forall m :: 0 <= m < b - a ==> s[a..b][m] == s[a + m] == s[1..][a - 1..b - 1][m];
  }

  /**
   * With no occurrence at index 0, occurrences before `n` in `s` are those
   * before `n - 1` in `s[1..]`, shifted by one.
   */
  lemma NoOccurrenceShift(s: string, sep: string, n: nat)
    requires |s| >= 1 && n >= 1 && !OccursAt(s, sep, 0)
    requires NoOccurrenceBefore(s[1..], sep, n - 1)
    ensures NoOccurrenceBefore(s, sep, n)
  {
    forall k | 0 < k < n ensures !OccursAt(s, sep, k) {
      assert !OccursAt(s[1..], sep, k - 1);
      if k + |sep| <= |s| {
        SliceShift(s, k, k + |sep|);
      }
    }
  }

  /** `Split` cuts at leftmost occurrences. */
  lemma {:induction false} SplitLeftmost(s: string, sep: string)
    requires |sep| > 0
    ensures LeftmostCuts(Split(s, sep), sep, s)
    decreases |s|
  {
    var pieces := Split(s, sep);
    JoinSplit(s, sep);
    if |s| < |sep| {
      assert pieces[0..] == pieces;
    } else if s[..|sep|] == sep {
      var rest := Split(s[|sep|..], sep);
      SplitLeftmost(s[|sep|..], sep);
      forall i | 0 <= i < |pieces|
        ensures NoOccurrenceBefore(Join(pieces[i..], sep), sep, |pieces[i]|)
      {
        if i > 0 {
          assert pieces[i..] == rest[i - 1..];
        }
      }
    } else {
      var rest := Split(s[1..], sep);
      SplitLeftmost(s[1..], sep);
      JoinSplit(s[1..], sep);
      forall i | 0 <= i < |pieces|
        ensures NoOccurrenceBefore(Join(pieces[i..], sep), sep, |pieces[i]|)
      {
        if i == 0 {
          assert pieces[0..] == pieces;
          assert rest[0..] == rest;
          NoOccurrenceShift(s, sep, |pieces[0]|);
        } else {
          assert pieces[i..] == rest[i..];
        }
      }
    }
  }

  /** Dropping the first piece of a leftmost-cut decomposition leaves one of the rest. */
  lemma LeftmostCutsRest(pieces: seq<string>, sep: string, s: string)
    requires LeftmostCuts(pieces, sep, s) && |pieces| >= 2
    ensures LeftmostCuts(pieces[1..], sep, Join(pieces[1..], sep))
  {
    forall i | 0 <= i < |pieces| - 1
      ensures NoOccurrenceBefore(Join(pieces[1..][i..], sep), sep, |pieces[1..][i]|)
    {
      assert pieces[1..][i..] == pieces[i + 1..];
    }
  }

  /**
   * Dropping the first character of a non-empty first piece leaves a
   * leftmost-cut decomposition of the text without its first character.
   */
  lemma LeftmostCutsShift(pieces: seq<string>, sep: string, s: string)
    requires LeftmostCuts(pieces, sep, s) && pieces[0] != ""
    ensures |s| >= 1 && !OccursAt(s, sep, 0)
    ensures LeftmostCuts([pieces[0][1..]] + pieces[1..], sep, s[1..])
  {
    var first := pieces[0];
    var q := [first[1..]] + pieces[1..];
    assert pieces[0..] == pieces;
    JoinConsFirst([first[0]], q, sep);
    assert [first[0]] + q[0] == first && q[1..] == pieces[1..];
    assert [[first[0]] + q[0]] + q[1..] == pieces;
    assert s == [first[0]] + Join(q, sep);
    assert s[1..] == Join(q, sep);
    forall i | 0 <= i < |q|
      ensures NoOccurrenceBefore(Join(q[i..], sep), sep, |q[i]|)
    {
      if i == 0 {
        assert q[0..] == q;
        forall k | 0 <= k < |q[0]| ensures !OccursAt(s[1..], sep, k) {
          assert !OccursAt(s, sep, k + 1);
          assert k + |sep| <= |s[1..]| ==> s[1..][k..k + |sep|] == s[k + 1..k + 1 + |sep|];
        }
      } else {
        assert q[i..] == pieces[i..];
      }
    }
  }

  /**
   * Cutting at leftmost occurrences determines the pieces: any such
   * decomposition of `s` is the one `Split` gives.
   */
  lemma {:induction false} LeftmostCutsUnique(pieces: seq<string>, sep: string, s: string)
    requires |sep| > 0 && LeftmostCuts(pieces, sep, s)
    ensures pieces == Split(s, sep)
    decreases |s|
  {
    assert pieces[0..] == pieces;
    if |pieces| == 1 {
      assert !Occurs(s, sep);
      SplitWhole(s, sep);
    } else if pieces[0] == "" {
      var tail := Join(pieces[1..], sep);
      assert s == sep + tail;
      assert s[..|sep|] == sep && s[|sep|..] == tail;
      LeftmostCutsRest(pieces, sep, s);
      LeftmostCutsUnique(pieces[1..], sep, tail);
      assert pieces == [""] + pieces[1..];
    } else {
      var first := pieces[0];
      var q := [first[1..]] + pieces[1..];
      LeftmostCutsShift(pieces, sep, s);
      LeftmostCutsUnique(q, sep, s[1..]);
      assert q[0] == first[1..] && q[1..] == pieces[1..];
      assert [s[0]] + q[0] == first;
      assert pieces == [first] + pieces[1..];
    }
  }

  /**
   * `uri.split("//")[-1]`: the last piece of the URI cut at leftmost `//`
   * occurrences, so the text after the last `//` the split cuts at, or the
   * whole URI when it has none. In a run of three or more slashes the cuts
   * fall from the left: `a://k///n` has the tail `/n`.
   */
  function Tail(uri: string): (tail: string)
    ensures |tail| <= |uri| && uri[|uri| - |tail|..] == tail
    ensures !Occurs(tail, "//")
    ensures |tail| < |uri| ==> OccursAt(uri, "//", |uri| - |tail| - 2)
    ensures !Occurs(uri, "//") ==> tail == uri
  {
    var parts := Split(uri, "//");
    JoinSplit(uri, "//");
    SplitPiecesFree(uri, "//");
    SplitCount(uri, "//");
    if |parts| >= 2 then
      JoinLast(parts, "//");
      var before := Join(parts[..|parts| - 1], "//");
      assert uri == before + "//" + parts[|parts| - 1];
      assert uri[|before|..|before| + 2] == "//";
      parts[|parts| - 1]
    else
      parts[0]
  }

  /**
   * The tail is the last piece of the one decomposition of the URI that cuts
   * at leftmost `//` occurrences.
   */
  lemma TailLeftmost(uri: string)
    ensures forall pieces | LeftmostCuts(pieces, "//", uri) :: Tail(uri) == pieces[|pieces| - 1]
  {
    forall pieces | LeftmostCuts(pieces, "//", uri) ensures Tail(uri) == pieces[|pieces| - 1] {
      LeftmostCutsUnique(pieces, "//", uri);
    }
  }

  /** The exception `parse_gsheets_uri` raises for a URI without a worksheet name. */
  datatype UriError = InvalidUri(message: string)

  const InvalidUriMessage: string :=
    "Invalid Google Sheets URI. Please provide URI with this format in FEEDS: "
    + "'gsheets://{spreadsheet_key}/{worksheet_name}'"

  /**
   * `parse_gsheets_uri`: the first two `/`-separated pieces of the tail, as
   * (spreadsheet key, worksheet name). It fails exactly when the tail has no
   * `/`; neither piece contains `/`, either may be empty, and whatever follows
   * them in the tail is ignored.
   */
  function ParseUri(uri: string): (r: Result<(string, string), UriError>)
    ensures r.Success? <==> '/' in Tail(uri)
    ensures r.Failure? ==> r.error == InvalidUri(InvalidUriMessage)
    ensures r.Success? ==>
              var (key, name) := r.value;
              var head := key + "/" + name;
              && '/' !in key && '/' !in name
              && |head| <= |Tail(uri)| && Tail(uri)[..|head|] == head
              && (|head| == |Tail(uri)| || Tail(uri)[|head|] == '/')
  {
    var parsed := Split(Tail(uri), "/");
    SplitSlash(Tail(uri));
    if |parsed| >= 2 then Success((parsed[0], parsed[1])) else Failure(InvalidUri(InvalidUriMessage))
  }

  /** What a split on `/` tells about its first two pieces. */
  lemma SplitSlash(t: string)
    ensures |Split(t, "/")| >= 2 <==> '/' in t
    ensures |Split(t, "/")| >= 2 ==>
              var parsed := Split(t, "/");
              var head := parsed[0] + "/" + parsed[1];
              && '/' !in parsed[0] && '/' !in parsed[1]
              && |head| <= |t| && t[..|head|] == head
              && (|head| == |t| || t[|head|] == '/')
  {
    var parsed := Split(t, "/");
    SplitCount(t, "/");
    OccursChar(t, '/');
    if |parsed| >= 2 {
      SplitPiecesFree(t, "/");
      assert parsed[0] in parsed && parsed[1] in parsed;
      OccursChar(parsed[0], '/');
      OccursChar(parsed[1], '/');
      JoinSplit(t, "/");
      var rest := parsed[1..];
      assert rest[0] == parsed[1];
      if |parsed| > 2 {
        assert rest[1..] == parsed[2..];
        assert t == parsed[0] + "/" + (parsed[1] + "/" + Join(parsed[2..], "/"));
      } else {
        assert t == parsed[0] + "/" + parsed[1];
      }
    }
  }

  /**
   * A URI of the documented shape `scheme://{key}/{name}` with any further
   * `/`-segments after the name yields exactly that key and that name.
   */
  lemma {:induction false} ParseDocumentedUri(scheme: string, key: string, name: string, more: string)
    requires '/' !in scheme && '/' !in key && '/' !in name
    requires more == "" || more[0] == '/'
    requires !Occurs(key + "/" + name + more, "//")
    ensures ParseUri(scheme + "//" + key + "/" + name + more) == Success((key, name))
  {
    var t := key + "/" + name + more;
    assert scheme + "//" + key + "/" + name + more == scheme + "//" + t;
    TailAfterScheme(scheme, t);
    SplitKeyName(key, name, more);
  }

  lemma TailAfterScheme(scheme: string, t: string)
    requires '/' !in scheme && !Occurs(t, "//")
    ensures Tail(scheme + "//" + t) == t
  {
    SplitAfter(scheme, "//", t);
    SplitWhole(t, "//");
  }

  lemma SplitKeyName(key: string, name: string, more: string)
    requires '/' !in key && '/' !in name
    requires more == "" || more[0] == '/'
    ensures var parsed := Split(key + "/" + name + more, "/");
            |parsed| >= 2 && parsed[0] == key && parsed[1] == name
  {
    assert key + "/" + name + more == key + "/" + (name + more);
    SplitAfter(key, "/", name + more);
    if more == "" {
      assert name + more == name;
      OccursChar(name, '/');
      SplitWhole(name, "/");
    } else {
      assert name + more == name + "/" + more[1..];
      SplitAfter(name, "/", more[1..]);
    }
  }

  /**
   * In a run of three slashes the `//` cut falls on the first two, so the
   * third slash starts the tail.
   */
  lemma TailSlashRun()
    ensures Tail("a://k///n") == "/n"
  {
    SplitSlashRun();
  }

  lemma SplitSlashRun()
    ensures Split("a://k///n", "//") == ["a:", "k", "/n"]
  {
    assert "a://k///n" == "a:" + "//" + "k///n";
    assert "k///n" == "k" + "//" + "/n";
    SplitAfter("a:", "//", "k///n");
    SplitAfter("k", "//", "/n");
    assert !OccursAt("/n", "//", 0);
    SplitWhole("/n", "//");
  }

  /** So `a://k///n` parses to an empty spreadsheet key and the name `n`. */
  lemma ParseSlashRun()
    ensures ParseUri("a://k///n") == Success(("", "n"))
  {
    TailSlashRun();
    assert "/n" == "" + "/" + "n";
    SplitAfter("", "/", "n");
    OccursChar("n", '/');
    SplitWhole("n", "/");
    assert Split("/n", "/") == ["", "n"];
  }
}
