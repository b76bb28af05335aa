/** Removal of markdown code fences from the model's reply. */
module ReplySanitizer {
  import opened Wrappers
  import opened Strings

  const JsonFence: string := "```json"
  const Fence: string := "```"

  /** Removes every bare fence. */
  function StripFences(s: string): string {
    ReplaceAll(s, Fence, "")
  }

  /** Non-empty text loses every "```json", then every "```", wherever they
      stand, and is then trimmed; `null` and the empty string pass through.
      What comes out holds no fence and has no white space at either end. */
  function Sanitize(text: NString): (r: NString)
    ensures IsNullOrEmpty(text) ==> r == text
    ensures !IsNullOrEmpty(text) ==> r.Some? && Trimmed(r.value) && !Contains(r.value, Fence)
  {
    if !IsNullOrEmpty(text) then Some(Clean(text.value)) else text
  }

  /** The Replace, Replace, Trim chain. */
  function Clean(s: string): (r: string)
    ensures Trimmed(r) && !Contains(r, Fence)
  {
    var stripped := StripFences(ReplaceAll(s, JsonFence, ""));
    StripFencesLeavesNone(ReplaceAll(s, JsonFence, ""));
    TrimKeepsAbsence(stripped, Fence);
    Trim(stripped)
  }

  /** A text whose first character is no backtick keeps it first. */
  lemma StripKeepsFirst(s: string)
    requires s != [] && s[0] != '`'
    ensures StripFences(s) != [] && StripFences(s)[0] == s[0]
  {
    if |s| >= 3 {
      assert s[..3][0] == s[0];
    }
  }

  /** A text that starts with a single backtick keeps its first two characters. */
  lemma StripKeepsFirstTwo(s: string)
    requires |s| >= 2 && s[0] == '`' && s[1] != '`'
    ensures |StripFences(s)| >= 2 && StripFences(s)[0] == s[0] && StripFences(s)[1] == s[1]
  {
    if |s| >= 3 {
      assert s[..3][1] == s[1];
      StripKeepsFirst(s[1..]);
    }
  }

  /** After the scan no fence is left: a run of backticks keeps fewer than
      three of them, and runs stay apart because nothing else is removed. */
  lemma {:induction false} StripFencesLeavesNone(s: string)
    ensures !Contains(StripFences(s), Fence)
    decreases |s|
  {
    var r := StripFences(s);
    if |s| < 3 {
      assert r == s;
    } else if s[..3] == Fence {
      assert r == StripFences(s[3..]);
      StripFencesLeavesNone(s[3..]);
    } else {
      var t := s[1..];
      var rt := StripFences(t);
      StripFencesLeavesNone(t);
      assert r == [s[0]] + rt;
      forall i | 0 <= i <= |r| ensures !OccursAt(r, Fence, i) {
        if i > 0 && OccursAt(r, Fence, i) {
          assert r[i..i + 3] == rt[i - 1..i + 2];
          assert OccursAt(rt, Fence, i - 1);
        }
        if i == 0 && |r| >= 3 {
          if s[0] != '`' {
            assert r[..3][0] != '`';
          } else if s[1] != '`' {
            StripKeepsFirst(t);
            assert r[..3][1] != '`';
          } else {
            assert s[..3][2] == s[2];
            StripKeepsFirstTwo(t);
            assert r[..3][2] != '`';
          }
        }
      }
    }
  }

  /** A trailing fence disappears without changing the rest of the scan. */
  lemma {:induction false} StripFencesAbsorbsTrailing(t: string)
    ensures StripFences(t + Fence) == StripFences(t)
    decreases |t|
  {
    var s := t + Fence;
    if t == [] {
      assert s == Fence;
      assert s[3..] == [];
    } else if s[..3] == Fence {
      if |t| >= 3 {
        assert t[..3] == Fence;
        assert s[3..] == t[3..] + Fence;
        StripFencesAbsorbsTrailing(t[3..]);
      } else {
        forall k | 0 <= k < |t| ensures t[k] == '`' {
          assert s[..3][k] == t[k];
        }
        assert s[3..] == t;
      }
    } else {
      assert s[1..] == t[1..] + Fence;
      StripFencesAbsorbsTrailing(t[1..]);
      if |t| >= 3 {
        assert t[..3] == s[..3];
      } else {
        assert t == [t[0]] + t[1..];
      }
    }
  }

  /** Text that is trimmed and holds no fence is left as it is. */
  lemma CleanOfClean(v: string)
    requires Trimmed(v) && !Contains(v, Fence)
    ensures Clean(v) == v
  {
    forall i | 0 <= i <= |v| ensures !OccursAt(v, JsonFence, i) {
      if OccursAt(v, JsonFence, i) {
        assert v[i..i + 3] == v[i..i + 7][..3];
        assert OccursAt(v, Fence, i);
      }
    }
    assert !Contains(v, JsonFence);
    ReplaceAllAbsent(v, JsonFence, "");
    ReplaceAllAbsent(v, Fence, "");
    assert StripFences(ReplaceAll(v, JsonFence, "")) == v;
    TrimOfTrimmed(v);
  }

  /** Sanitising is idempotent. */
  lemma SanitizeIdempotent(text: NString)
    ensures Sanitize(Sanitize(text)) == Sanitize(text)
  {
    if !IsNullOrEmpty(text) {
      CleanOfClean(Clean(text.value));
    }
  }

  /** A reply wrapped as "```json" + x + "```" sanitises as x does. */
  lemma SanitizeUnwrapsFencedReply(x: string)
    ensures Sanitize(Some(JsonFence + x + Fence)) == Sanitize(Some(x))
  {
    var s := JsonFence + x + Fence;
    var j := ReplaceAll(x, JsonFence, "");
    assert ReplaceAll(s, JsonFence, "") == ReplaceAll(x + Fence, JsonFence, "") by {
      assert s[..7] == JsonFence;
      assert s[7..] == x + Fence;
    }
    ReplaceAllShortTail(x, Fence, JsonFence, "");
    StripFencesAbsorbsTrailing(j);
    assert Clean(s) == Clean(x);
    if x == [] {
      assert Clean(x) == [] by {
        assert j == [];
        assert StripFences(j) == [];
      }
    }
  }

  /** `Clean` sees its input only through the first pass. A bookkeeping
      step: stating it on its own keeps `SanitizeRemovesInnerJsonFence`
      within the solver's budget. */
  lemma CleanAfterFirstPass(s: string, t: string)
    requires ReplaceAll(s, JsonFence, "") == ReplaceAll(t, JsonFence, "")
    ensures Clean(s) == Clean(t)
  {
  }

  /** The first pass drops a "```json" preceded by no backtick. */
  lemma FirstPassDropsInnerJsonFence(a: string, b: string)
    requires '`' !in a
    ensures ReplaceAll(a + JsonFence + b, JsonFence, "") == ReplaceAll(a + b, JsonFence, "")
  {
    var f := JsonFence + b;
    assert a + JsonFence + b == a + f;
    assert JsonFence[0] == '`';
    ReplaceAllSkipsPrefix(a, f, JsonFence, "");
    ReplaceAllSkipsPrefix(a, b, JsonFence, "");
    assert f[..7] == JsonFence;
    assert f[7..] == b;
  }

  /** A "```json" in the middle of the text is removed as well: text that
      has no backtick before it sanitises as if it were not there. */
  lemma SanitizeRemovesInnerJsonFence(a: string, b: string)
    requires '`' !in a
    ensures Sanitize(Some(a + JsonFence + b)) == Sanitize(Some(a + b))
  {
    var s, t := a + JsonFence + b, a + b;
    assert Clean(s) == Clean(t) by {
      FirstPassDropsInnerJsonFence(a, b);
      CleanAfterFirstPass(s, t);
    }
    assert Sanitize(Some(s)) == Some(Clean(s)) by {
      assert |s| >= 7;
    }
    if t == [] {
      assert Clean(t) == [] by {
        assert ReplaceAll(t, JsonFence, "") == [];
        assert StripFences([]) == [];
      }
    } else {
      assert Sanitize(Some(t)) == Some(Clean(t));
    }
  }
}
