/** Text helpers the action relies on: Ruby's `Array#join(' ')` and prefix/suffix tests. */
module Text {

  predicate IsPrefix(p: string, s: string) {
    |p| <= |s| && s[..|p|] == p
  }

  predicate IsSuffix(p: string, s: string) {
    |p| <= |s| && s[|s| - |p|..] == p
  }

  /** `parts.join(' ')`: the parts in order with one space between neighbours; `[]` gives "". */
  function Join(parts: seq<string>): string
  {
    if |parts| == 0 then ""
    else if |parts| == 1 then parts[0]
    else Join(parts[..|parts| - 1]) + " " + parts[|parts| - 1]
  }

  /** A non-empty join starts with its first part and ends with its last part. */
  lemma {:induction false} JoinBounds(parts: seq<string>)
    requires |parts| > 0
    ensures IsPrefix(parts[0], Join(parts)) && IsSuffix(parts[|parts| - 1], Join(parts))
  {
    if |parts| > 1 {
      var init := parts[..|parts| - 1];
      JoinBounds(init);
      assert init[0] == parts[0];
      PrefixExtends(parts[0], Join(init), " " + parts[|parts| - 1]);
    }
  }

  lemma PrefixExtends(p: string, s: string, t: string)
    requires IsPrefix(p, s)
    ensures IsPrefix(p, s + t)
  {
  }

  /** Joining two non-empty runs of parts is joining each run and putting one space between. */
  lemma {:induction false} JoinConcat(xs: seq<string>, ys: seq<string>)
    requires |xs| > 0 && |ys| > 0
    ensures Join(xs + ys) == Join(xs) + " " + Join(ys)
  {
    var zs := xs + ys;
    var last := ys[|ys| - 1];
    assert zs[|zs| - 1] == last;
    if |ys| == 1 {
      assert zs[..|zs| - 1] == xs;
      assert Join(ys) == last;
      assert Join(zs) == Join(xs) + " " + last;
    } else {
      var ys' := ys[..|ys| - 1];
      assert zs[..|zs| - 1] == xs + ys';
      JoinConcat(xs, ys');
      assert Join(zs) == Join(xs + ys') + " " + last;
      assert Join(ys) == Join(ys') + " " + last;
    }
  }

  /** The last m parts of an array with more than m parts, joined, end its join, after a space. */
  lemma {:induction false} JoinTail(parts: seq<string>, m: nat)
    requires 0 < m < |parts|
    ensures IsSuffix(" " + Join(parts[|parts| - m..]), Join(parts))
  {
    var front, back := parts[..|parts| - m], parts[|parts| - m..];
    var tail := " " + Join(back);
    assert Join(parts) == Join(front) + tail by {
      assert parts == front + back;
      JoinConcat(front, back);
    }
    SuffixOfConcat(Join(front), tail);
  }

  lemma SuffixOfConcat(s: string, t: string)
    ensures IsSuffix(t, s + t)
  {
  }
}
