/** Character-sequence helpers: the slice `s[::-1]` and line concatenation. */
module Text {

  /** Full character-by-character reversal, Python's `s[::-1]` on a `str`. */
  function Reverse(s: string): (r: string)
    ensures |r| == |s|
  {
    if s == [] then [] else [s[|s| - 1]] + Reverse(s[..|s| - 1])
  }

  /** Position k of the reversal holds the character k places from the end. */
  lemma {:induction false} ReverseAt(s: string, k: nat)
    requires k < |s|
    ensures Reverse(s)[k] == s[|s| - 1 - k]
  {
    if k > 0 {
      ReverseAt(s[..|s| - 1], k - 1);
    }
  }

  /** The reversal is characterised pointwise. */
  lemma ReverseIsMirror(s: string)
    ensures forall k :: 0 <= k < |s| ==> Reverse(s)[k] == s[|s| - 1 - k]
  {
    forall k | 0 <= k < |s| ensures Reverse(s)[k] == s[|s| - 1 - k] {
      ReverseAt(s, k);
    }
  }

  /** Any string that mirrors s position by position is its reversal. */
  lemma MirrorIsReverse(s: string, t: string)
    requires |t| == |s|
    requires forall k :: 0 <= k < |s| ==> t[k] == s[|s| - 1 - k]
    ensures t == Reverse(s)
  {
    ReverseIsMirror(s);
  }

  /** Reversing twice gives back the original string. */
  lemma ReverseInvolutive(s: string)
    ensures Reverse(Reverse(s)) == s
  {
    var r := Reverse(s);
    ReverseIsMirror(s);
    ReverseIsMirror(r);
  }

  /** Regrouping a concatenation of three strings. */
  lemma Assoc(a: string, b: string, c: string)
    ensures (a + b) + c == a + (b + c)
  {
  }

  /** The lines of a sequence of line blocks, in order. */
  function Flatten(blocks: seq<seq<string>>): (lines: seq<string>)
    ensures blocks == [] ==> lines == []
  {
    if blocks == [] then [] else blocks[0] + Flatten(blocks[1..])
  }
}
