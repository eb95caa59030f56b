/** String operations the skip-links check relies on: PHP's `strpos(...) !== false`
    and `implode(', ', ...)`, with a reader that takes a joined list apart again. */
module Text {

  /** `needle` occurs in `s` starting at index `i`. */
  predicate OccursAt(s: string, needle: string, i: nat)
  {
    i + |needle| <= |s| && s[i..i + |needle|] == needle
  }

  /** `s` begins with `prefix`, compared character by character. */
  predicate StartsWith(s: string, prefix: string)
    decreases |prefix|
  {
    |prefix| == 0 || (|s| > 0 && s[0] == prefix[0] && StartsWith(s[1..], prefix[1..]))
  }

  lemma {:induction false} StartsWithIff(s: string, prefix: string)
    ensures StartsWith(s, prefix) <==> OccursAt(s, prefix, 0)
    decreases |prefix|
  {
    if |prefix| > 0 && |s| > 0 {
      StartsWithIff(s[1..], prefix[1..]);
      if |prefix| <= |s| {
        assert s[..|prefix|] == [s[0]] + s[1..][..|prefix| - 1];
        assert prefix == [prefix[0]] + prefix[1..];
      }
    }
  }

  /** `strpos($s, $needle) !== false`, written as a left-to-right search. */
  predicate Contains(s: string, needle: string)
    decreases |s|
  {
    StartsWith(s, needle) || (|s| > 0 && Contains(s[1..], needle))
  }

  lemma OccursAtTail(s: string, needle: string, i: nat)
    requires |s| > 0
    ensures OccursAt(s[1..], needle, i) <==> OccursAt(s, needle, i + 1)
  {
  }

  /** The search finds `needle` exactly when it occurs at some index. */
  lemma {:induction false} ContainsIff(s: string, needle: string)
    ensures Contains(s, needle) <==> exists i: nat :: OccursAt(s, needle, i)
    decreases |s|
  {
    StartsWithIff(s, needle);
    if |s| > 0 {
      ContainsIff(s[1..], needle);
      if Contains(s[1..], needle) {
        var i: nat :| OccursAt(s[1..], needle, i);
        OccursAtTail(s, needle, i);
      }
      if i: nat :| OccursAt(s, needle, i) && i > 0 {
        OccursAtTail(s, needle, i - 1);
      }
    } else if i: nat :| OccursAt(s, needle, i) {
      assert i == 0;
    }
  }

  /** A needle found at index `i` makes the search succeed. */
  lemma ContainsAt(s: string, needle: string, i: nat)
    requires OccursAt(s, needle, i)
    ensures Contains(s, needle)
  {
    ContainsIff(s, needle);
  }

  /** `implode(sep, parts)`. */
  function Join(parts: seq<string>, sep: string): string
  {
    if |parts| == 0 then ""
    else if |parts| == 1 then parts[0]
    else parts[0] + sep + Join(parts[1..], sep)
  }

  /** With a non-empty separator, the joined string is empty only for no parts or one empty part. */
  lemma JoinEmptyIff(parts: seq<string>, sep: string)
    requires sep != ""
    ensures Join(parts, sep) == "" <==> |parts| == 0 || (|parts| == 1 && parts[0] == "")
  {
  }

  /** Joining keeps the order of the parts: joining two non-empty lists joins their joins. */
  lemma {:induction false} JoinAppend(a: seq<string>, b: seq<string>, sep: string)
    requires a != [] && b != []
    ensures Join(a + b, sep) == Join(a, sep) + sep + Join(b, sep)
    decreases |a|
  {
    if |a| == 1 {
      assert (a + b)[1..] == b;
    } else {
      assert (a + b)[1..] == a[1..] + b;
      JoinAppend(a[1..], b, sep);
    }
  }

  /** `s` has no ", " inside it. */
  predicate NoSeparator(s: string)
  {
    forall i :: 0 <= i < |s| - 1 ==> !(s[i] == ',' && s[i + 1] == ' ')
  }

  /** Cuts `s` at every ", " scanned left to right (the reading `explode(', ', s)` gives). */
  function SplitNames(s: string): (parts: seq<string>)
    ensures |parts| > 0
    decreases |s|
  {
    if |s| == 0 then [""]
    else if |s| >= 2 && s[0] == ',' && s[1] == ' ' then [""] + SplitNames(s[2..])
    else
      var rest := SplitNames(s[1..]);
      [[s[0]] + rest[0]] + rest[1..]
  }

  lemma {:induction false} SplitNamesSingle(n: string)
    requires NoSeparator(n)
    ensures SplitNames(n) == [n]
    decreases |n|
  {
    if |n| > 0 {
      assert NoSeparator(n[1..]) by {
        forall i | 0 <= i < |n[1..]| - 1 ensures !(n[1..][i] == ',' && n[1..][i + 1] == ' ') {
          assert n[1..][i] == n[i + 1] && n[1..][i + 1] == n[i + 2];
        }
      }
      SplitNamesSingle(n[1..]);
      assert [n[0]] + n[1..] == n;
    }
  }

  lemma {:induction false} SplitNamesHead(n: string, rest: string)
    requires NoSeparator(n)
    ensures SplitNames(n + ", " + rest) == [n] + SplitNames(rest)
    decreases |n|
  {
    var s := n + ", " + rest;
    if |n| == 0 {
      assert s[2..] == rest;
    } else {
      assert NoSeparator(n[1..]) by {
        forall i | 0 <= i < |n[1..]| - 1 ensures !(n[1..][i] == ',' && n[1..][i + 1] == ' ') {
          assert n[1..][i] == n[i + 1] && n[1..][i + 1] == n[i + 2];
        }
      }
      assert s[1..] == n[1..] + ", " + rest;
      assert !(s[0] == ',' && s[1] == ' ') by {
        if |n| == 1 { assert s[1] == ','; } else { assert s[0] == n[0] && s[1] == n[1]; }
      }
      SplitNamesHead(n[1..], rest);
      assert [n[0]] + n[1..] == n;
    }
  }

  /** Reading a joined list back gives the list, as long as no part holds the separator. */
  lemma {:induction false} SplitJoin(parts: seq<string>)
    requires parts != []
    requires forall k :: 0 <= k < |parts| ==> NoSeparator(parts[k])
    ensures SplitNames(Join(parts, ", ")) == parts
    decreases |parts|
  {
    if |parts| == 1 {
      SplitNamesSingle(parts[0]);
    } else {
      SplitNamesHead(parts[0], Join(parts[1..], ", "));
      SplitJoin(parts[1..]);
    }
  }
}
