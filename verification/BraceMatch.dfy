/** The body of a `{`-delimited block, by counting braces. */
module BraceMatch {
  import opened Wrappers
  import opened Bytes

  const OPEN: Byte := 123   // '{'
  const CLOSE: Byte := 125  // '}'

  lemma BracesAsText()
    ensures [OPEN, CLOSE] == Ascii("{}")
  {
  }

  /** Open braces minus closing braces. */
  function Surplus(s: seq<Byte>): int {
    if |s| == 0 then 0
    else Surplus(s[..|s| - 1]) + (if s[|s| - 1] == OPEN then 1 else if s[|s| - 1] == CLOSE then -1 else 0)
  }

  /** Every closing brace matches an open one before it, and all are closed. */
  predicate Balanced(s: seq<Byte>) {
    Surplus(s) == 0 && forall i :: 0 <= i <= |s| ==> Surplus(s[..i]) >= 0
  }

  /** The brace at `pos` closes the block that was opened just before `start`. */
  predicate Closes(content: seq<Byte>, start: nat, pos: nat) {
    start <= pos < |content| && content[pos] == CLOSE && Balanced(content[start..pos])
  }

  lemma SurplusStep(content: seq<Byte>, start: nat, pos: nat)
    requires start <= pos < |content|
    ensures Surplus(content[start..pos + 1])
         == Surplus(content[start..pos]) + (if content[pos] == OPEN then 1 else if content[pos] == CLOSE then -1 else 0)
  {
    assert content[start..pos + 1][..pos - start] == content[start..pos];
  }

  lemma SurplusOfPrefix(content: seq<Byte>, start: nat, pos: nat, i: nat)
    requires start <= pos <= |content| && i <= pos - start
    ensures content[start..pos][..i] == content[start..start + i]
  {
  }

  /** A block is closed by at most one brace. */
  lemma ClosedOnce(content: seq<Byte>, start: nat, p: nat, q: nat)
    requires Closes(content, start, p) && Closes(content, start, q)
    ensures p == q
  {
    if p < q {
      NotClosedEarlier(content, start, p, q);
    } else if q < p {
      NotClosedEarlier(content, start, q, p);
    }
  }

  lemma NotClosedEarlier(content: seq<Byte>, start: nat, p: nat, q: nat)
    requires Closes(content, start, p) && start <= p < q <= |content|
    ensures !Balanced(content[start..q])
  {
    SurplusStep(content, start, p);
    SurplusOfPrefix(content, start, q, p + 1 - start);
  }

  /** The body is found exactly when a closing brace matches, and is then the text before that brace. */
  method ExtractBraceBody(content: seq<Byte>, start: nat) returns (r: Option<seq<Byte>>)
    ensures r.Some? <==> exists pos: nat :: Closes(content, start, pos)
    ensures r.Some? ==> exists pos: nat :: Closes(content, start, pos) && r.value == content[start..pos]
  {
    var depth := 1;
    var pos := start;
    while pos < |content| && depth > 0
      invariant start <= pos && (pos <= |content| || pos == start)
      invariant pos <= |content| ==> forall k :: start <= k <= pos ==> Surplus(content[start..k]) >= 0
      invariant depth >= 0
      invariant pos <= |content| && depth > 0 ==> depth == 1 + Surplus(content[start..pos])
      invariant depth == 0 ==> pos < |content| && content[pos] == CLOSE && Surplus(content[start..pos]) == 0
      decreases |content| - pos, depth
    {
      SurplusStep(content, start, pos);
      if content[pos] == OPEN {
        depth := depth + 1;
      } else if content[pos] == CLOSE {
        depth := depth - 1;
      }
      if depth > 0 {
        pos := pos + 1;
      }
    }
    if depth == 0 {
      assert Balanced(content[start..pos]) by {
        forall i | 0 <= i <= pos - start
          ensures Surplus(content[start..pos][..i]) >= 0
        {
          SurplusOfPrefix(content, start, pos, i);
        }
      }
      assert Closes(content, start, pos);
      return Some(content[start..pos]);
    }
    forall p | Closes(content, start, p)
      ensures false
    {
      SurplusStep(content, start, p);
    }
    return None;
  }

  /** A balanced text placed behind an open brace and followed by a closing one is extracted. */
  method ExtractPlaced(before: seq<Byte>, body: seq<Byte>, after: seq<Byte>) returns (r: Option<seq<Byte>>)
    requires Balanced(body)
    ensures r == Some(body)
  {
    var content := before + body + [CLOSE] + after;
    assert content[|before|..|before| + |body|] == body;
    assert Closes(content, |before|, |before| + |body|);
    r := ExtractBraceBody(content, |before|);
    var pos: nat :| Closes(content, |before|, pos) && r.value == content[|before|..pos];
    ClosedOnce(content, |before|, pos, |before| + |body|);
  }
}
