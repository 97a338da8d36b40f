/** Optional values, used for lookups and decoders that can fail. */
module Options {
  datatype Option<+T> = None | Some(value: T)
}

/**
 * The part of Go's `strings` package that the moderation filter and the
 * bearer-header parser rely on.
 *
 * A Go `string` is an immutable sequence of bytes and `len(s)` counts bytes.
 * The model writes a Go string as a Dafny `string` whose characters each stand
 * for one byte, so `|s|` is `len(s)`; text is taken to be ASCII (or already
 * split into its UTF-8 bytes).
 */
module GoStrings {

  /** Go's `byte`: an unsigned 8-bit integer. */
  newtype byte = x: int | 0 <= x < 256

  /** `strings.Split(s, sep)` for a one-byte separator: the pieces of `s`
      between the occurrences of `sep`. Never empty: `Split("", sep)` is `[""]`. */
  function Split(s: string, sep: char): (fields: seq<string>)
    ensures |fields| >= 1
    ensures forall i | 0 <= i < |fields| :: sep !in fields[i]
  {
    if |s| == 0 then [""]
    else
      var rest := Split(s[1..], sep);
      if s[0] == sep then [""] + rest
      else [[s[0]] + rest[0]] + rest[1..]
  }

  /** `strings.Join(fields, sep)`: the fields with one `sep` between neighbours. */
  function Join(fields: seq<string>, sep: char): (s: string)
  {
    if |fields| == 0 then ""
    else if |fields| == 1 then fields[0]
    else fields[0] + [sep] + Join(fields[1..], sep)
  }

  /** Joining the pieces of a split gives the original string back. */
  lemma {:induction false} JoinSplit(s: string, sep: char)
    ensures Join(Split(s, sep), sep) == s
  {
    if |s| > 0 {
      var rest := Split(s[1..], sep);
      JoinSplit(s[1..], sep);
      if s[0] == sep {
        assert Split(s, sep) == [""] + rest;
        assert ([""] + rest)[1..] == rest;
      } else {
        var fields := Split(s, sep);
        assert fields == [[s[0]] + rest[0]] + rest[1..];
        if |rest| == 1 {
          assert s == [s[0]] + s[1..];
        } else {
          assert fields[1..] == rest[1..];
          assert Join(rest, sep) == rest[0] + [sep] + Join(rest[1..], sep);
          assert s == [s[0]] + s[1..];
        }
      }
    }
  }

  /** A split has more than one field exactly when the separator occurs. */
  lemma {:induction false} SplitSingle(s: string, sep: char)
    ensures |Split(s, sep)| == 1 <==> sep !in s
  {
    if |s| > 0 {
      SplitSingle(s[1..], sep);
      assert s == [s[0]] + s[1..];
    }
  }

  /** Splitting a string whose first field is `a` (no separator in `a`). */
  lemma {:induction false} SplitAfterField(a: string, rest: string, sep: char)
    requires sep !in a
    ensures Split(a + [sep] + rest, sep) == [a] + Split(rest, sep)
  {
    if |a| == 0 {
      assert a + [sep] + rest == [sep] + rest;
      assert ([sep] + rest)[1..] == rest;
    } else {
      var s := a + [sep] + rest;
      assert s[0] == a[0] && s[1..] == a[1..] + [sep] + rest;
      SplitAfterField(a[1..], rest, sep);
      assert [a[0]] + a[1..] == a;
    }
  }

  /** Splitting the join of separator-free fields gives the fields back. */
  lemma {:induction false} SplitJoin(fields: seq<string>, sep: char)
    requires |fields| >= 1
    requires forall i | 0 <= i < |fields| :: sep !in fields[i]
    ensures Split(Join(fields, sep), sep) == fields
  {
    if |fields| == 1 {
      JoinSplit(fields[0], sep);
    } else {
      SplitJoin(fields[1..], sep);
      SplitAfterField(fields[0], Join(fields[1..], sep), sep);
      assert [fields[0]] + fields[1..] == fields;
    }
  }

  /** Splitting around one separator splits each side on its own. */
  lemma {:induction false} SplitConcat(x: string, y: string, sep: char)
    ensures Split(x + [sep] + y, sep) == Split(x, sep) + Split(y, sep)
  {
    var s := x + [sep] + y;
    if |x| == 0 {
      assert s[1..] == y;
    } else {
      assert s[1..] == x[1..] + [sep] + y;
      SplitConcat(x[1..], y, sep);
      var left := Split(x[1..], sep);
      if x[0] == sep {
        assert Split(s, sep) == [""] + (left + Split(y, sep));
      } else {
        assert Split(s, sep) == [[x[0]] + left[0]] + (left + Split(y, sep))[1..];
        assert (left + Split(y, sep))[1..] == left[1..] + Split(y, sep);
      }
    }
  }

  /** Joining two non-empty lists of fields is joining each and putting one
      separator between them. */
  lemma {:induction false} JoinConcat(a: seq<string>, b: seq<string>, sep: char)
    requires |a| >= 1 && |b| >= 1
    ensures Join(a + b, sep) == Join(a, sep) + [sep] + Join(b, sep)
  {
    if |a| > 1 {
      JoinConcat(a[1..], b, sep);
      assert (a + b)[1..] == a[1..] + b;
    }
  }

  /** Joining fields that are each no longer than their counterparts gives a
      string no longer than the join of the counterparts. */
  lemma {:induction false} JoinNotLonger(short: seq<string>, long: seq<string>, sep: char)
    requires |short| == |long|
    requires forall i | 0 <= i < |short| :: |short[i]| <= |long[i]|
    ensures |Join(short, sep)| <= |Join(long, sep)|
  {
    if |short| > 1 {
      JoinNotLonger(short[1..], long[1..], sep);
    }
  }

  /** `unicode.ToLower` restricted to ASCII: upper-case letters map to lower case. */
  function ToLowerChar(c: char): (l: char)
    ensures 'A' <= c <= 'Z' ==> 'a' <= l <= 'z' && l as int - c as int == 32
    ensures !('A' <= c <= 'Z') ==> l == c
  {
    if 'A' <= c <= 'Z' then (c as int + 32) as char else c
  }

  /** `strings.ToLower` on ASCII text: lower-cases every byte, keeps the length. */
  function ToLower(s: string): (l: string)
    ensures |l| == |s|
    ensures forall i | 0 <= i < |s| :: l[i] == ToLowerChar(s[i])
  {
    if |s| == 0 then "" else [ToLowerChar(s[0])] + ToLower(s[1..])
  }
}
