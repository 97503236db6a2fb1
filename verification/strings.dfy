/** JavaScript's `String.prototype.split` with a one-character separator, its
    inverse `Join`, and the e-mail domain that registration derives from it. */
module Strings {
  import opened Wrappers

  /** `s.split(sep)`: the maximal separator-free segments of `s`, in order.
      Like JavaScript, an empty string gives one empty segment and every
      separator starts a new (possibly empty) segment. */
  function Split(s: string, sep: char): (parts: seq<string>)
    ensures |parts| >= 1
    ensures forall i :: 0 <= i < |parts| ==> sep !in parts[i]
    decreases |s|
  {
    if |s| == 0 then [""]
    else
      var rest := Split(s[1..], sep);
      if s[0] == sep then [""] + rest
      else [[s[0]] + rest[0]] + rest[1..]
  }

  /** `parts.join(sep)`. */
  function Join(parts: seq<string>, sep: char): string
  {
    if |parts| == 0 then ""
    else if |parts| == 1 then parts[0]
    else parts[0] + [sep] + Join(parts[1..], sep)
  }

  /** Joining the segments of a split gives back the original string. */
  lemma {:induction false} JoinSplit(s: string, sep: char)
    ensures Join(Split(s, sep), sep) == s
    decreases |s|
  {
    if |s| > 0 {
      var rest := Split(s[1..], sep);
      JoinSplit(s[1..], sep);
      if s[0] == sep {
        assert ([""] + rest)[1..] == rest;
      } else if |rest| > 1 {
        assert ([[s[0]] + rest[0]] + rest[1..])[1..] == rest[1..];
        assert s == [s[0]] + s[1..];
      } else {
        assert s == [s[0]] + s[1..];
      }
    }
  }

  /** A string without the separator is a single segment. */
  lemma {:induction false} SplitWithoutSeparator(s: string, sep: char)
    requires sep !in s
    ensures Split(s, sep) == [s]
    decreases |s|
  {
    if |s| > 0 {
      assert sep !in s[1..];
      SplitWithoutSeparator(s[1..], sep);
      assert s == [s[0]] + s[1..];
    }
  }

  /** Splitting `a + sep + b` with a separator-free `a` yields `a` followed by the split of `b`. */
  lemma {:induction false} SplitAtFirstSeparator(a: string, b: string, sep: char)
    requires sep !in a
    ensures Split(a + [sep] + b, sep) == [a] + Split(b, sep)
    decreases |a|
  {
    var s := a + [sep] + b;
    if |a| == 0 {
      assert s[1..] == b;
    } else {
      assert s[1..] == a[1..] + [sep] + b;
      assert sep !in a[1..];
      SplitAtFirstSeparator(a[1..], b, sep);
      assert a == [a[0]] + a[1..];
    }
  }

  /** The other direction of the round trip: a non-empty sequence of
      separator-free segments is recovered by splitting its join. */
  lemma {:induction false} SplitJoin(parts: seq<string>, sep: char)
    requires |parts| >= 1
    requires forall i :: 0 <= i < |parts| ==> sep !in parts[i]
    ensures Split(Join(parts, sep), sep) == parts
    decreases |parts|
  {
    if |parts| == 1 {
      SplitWithoutSeparator(parts[0], sep);
    } else {
      assert sep !in parts[0];
      SplitJoin(parts[1..], sep);
      SplitAtFirstSeparator(parts[0], Join(parts[1..], sep), sep);
      assert parts == [parts[0]] + parts[1..];
    }
  }

  /** A string splits into more than one segment exactly when it contains the separator. */
  lemma SplitCount(s: string, sep: char)
    ensures |Split(s, sep)| >= 2 <==> sep in s
  {
    var parts := Split(s, sep);
    if sep !in s {
      SplitWithoutSeparator(s, sep);
    } else {
      // a single separator-free segment could not join back to `s`
      JoinSplit(s, sep);
    }
  }

  /** `email.split('@')[1]`: the segment after the first '@' and before any
      second one; `None` models the `undefined` of a string with no '@'. */
  function DomainOf(email: string): (d: Option<string>)
    ensures d.None? <==> '@' !in email
    ensures d.Some? ==> '@' !in d.value
  {
    var parts := Split(email, '@');
    SplitCount(email, '@');
    if |parts| >= 2 then Some(parts[1])
    else None
  }

  /** The domain of `local@domain` (or of `local@domain@more`) is exactly `domain`. */
  lemma DomainOfAddress(local: string, domain: string, tail: string)
    requires '@' !in local && '@' !in domain
    requires tail == [] || tail[0] == '@'
    ensures DomainOf(local + "@" + domain + tail) == Some(domain)
  {
    var email := local + "@" + domain + tail;
    assert email == local + ['@'] + (domain + tail);
    SplitAtFirstSeparator(local, domain + tail, '@');
    if tail == [] {
      assert domain + tail == domain;
      SplitWithoutSeparator(domain, '@');
    } else {
      assert domain + tail == domain + ['@'] + tail[1..];
      SplitAtFirstSeparator(domain, tail[1..], '@');
    }
  }
}
