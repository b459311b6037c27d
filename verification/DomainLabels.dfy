/** Domains as label paths: lower-case labels, rightmost first. */
module DomainLabels {
  import opened Text

  type Path = seq<string>

  function Reverse<T>(s: seq<T>): (r: seq<T>)
    ensures |r| == |s|
  {
    if s == [] then [] else Reverse(s[1..]) + [s[0]]
  }

  lemma {:induction false} ReverseConcat<T>(a: seq<T>, b: seq<T>)
    ensures Reverse(a + b) == Reverse(b) + Reverse(a)
  {
    if a == [] {
      assert a + b == b;
    } else {
      assert (a + b)[1..] == a[1..] + b;
      ReverseConcat(a[1..], b);
    }
  }

  lemma {:induction false} ReverseTwice<T>(s: seq<T>)
    ensures Reverse(Reverse(s)) == s
  {
    if s != [] {
      ReverseConcat(Reverse(s[1..]), [s[0]]);
      ReverseTwice(s[1..]);
      assert Reverse([s[0]]) == [s[0]];
    }
  }

  lemma {:induction false} LowerReverse(parts: seq<string>)
    ensures LowerAll(Reverse(parts)) == Reverse(LowerAll(parts))
  {
    if parts != [] {
      LowerReverse(parts[1..]);
      LowerAllConcat(Reverse(parts[1..]), [parts[0]]);
      assert LowerAll(parts)[1..] == LowerAll(parts[1..]);
    }
  }

  /** The label path of a domain; "" is the single label "". */
  function Labels(domain: string): (p: Path)
    ensures |p| > 0
  {
    LowerAll(Reverse(Split(domain, '.')))
  }

  /** The string test of a suffix rule. */
  predicate IsSuffixOf(suffix: string, host: string) {
    var h := Lower(host);
    var s := Lower(suffix);
    h == s || EndsWith(h, "." + s)
  }

  lemma LabelsAreReversedSplit(domain: string)
    ensures Labels(domain) == Reverse(Split(Lower(domain), '.'))
  {
    SplitLower(domain, '.');
    LowerReverse(Split(domain, '.'));
  }

  lemma SuffixGivesPrefix(suffix: string, host: string)
    requires IsSuffixOf(suffix, host)
    ensures Labels(suffix) <= Labels(host)
  {
    var h, s := Lower(host), Lower(suffix);
    LabelsAreReversedSplit(host);
    LabelsAreReversedSplit(suffix);
    if h != s {
      var front := h[..|h| - |s| - 1];
      assert h == front + ("." + s) == front + ['.'] + s;
      SplitConcat(front, s, '.');
      ReverseConcat(Split(front, '.'), Split(s, '.'));
    }
  }

  lemma JoinedSuffix(h: string, s: string, front: seq<string>)
    requires Split(h, '.') == front + Split(s, '.')
    ensures h == s || EndsWith(h, "." + s)
  {
    hide Split, Join;
    if front == [] {
      assert Split(h, '.') == Split(s, '.');
      JoinSplit(h, '.');
      JoinSplit(s, '.');
    } else {
      var t := Join(front, ".");
      assert h == t + "." + s by {
        JoinSplit(h, '.');
        JoinSplit(s, '.');
        JoinConcat(front, Split(s, '.'), ".");
      }
      assert h == t + ("." + s);
    }
  }

  lemma PrefixGivesSuffix(suffix: string, host: string)
    requires Labels(suffix) <= Labels(host)
    ensures IsSuffixOf(suffix, host)
  {
    LabelsAreReversedSplit(host);
    LabelsAreReversedSplit(suffix);
    hide Labels, Lower, Reverse, Split;
    var x, y := Split(Lower(host), '.'), Split(Lower(suffix), '.');
    var rest := Reverse(x)[|y|..];
    assert Reverse(x) == Reverse(y) + rest;
    ReverseConcat(Reverse(y), rest);
    ReverseTwice(x);
    ReverseTwice(y);
    assert x == Reverse(rest) + y;
    JoinedSuffix(Lower(host), Lower(suffix), Reverse(rest));
  }

  /**
    The string test and the label test agree on all strings, empty labels
    included: a suffix matches exactly when its label path starts the host's.
   */
  lemma SuffixIsLabelPrefix(suffix: string, host: string)
    ensures IsSuffixOf(suffix, host) <==> Labels(suffix) <= Labels(host)
  {
    if IsSuffixOf(suffix, host) {
      SuffixGivesPrefix(suffix, host);
    }
    if Labels(suffix) <= Labels(host) {
      PrefixGivesSuffix(suffix, host);
    }
  }

  // ---- Case ----

  /** The string test without folding: the host ends in the suffix, up to case, at its start or after a dot. */
  lemma SuffixIff(suffix: string, host: string)
    ensures IsSuffixOf(suffix, host) <==>
              var k := |host| - |suffix|;
              k >= 0 && EqualIgnoringCase(host[k..], suffix) && (k == 0 || host[k - 1] == '.')
  {
    LowerAt(host);
    LowerAt(suffix);
    hide Lower, EqualIgnoringCase;
    var k := |host| - |suffix|;
    var h, s := Lower(host), Lower(suffix);
    if k >= 0 {
      LowerSlice(host, k, |host|);
      assert host[k..|host|] == host[k..] && h[k..|h|] == h[k..];
      LowerEqualsIff(host[k..], suffix);
      if k > 0 {
        assert h[k - 1] == '.' <==> host[k - 1] == '.';
        assert h[k - 1..] == [h[k - 1]] + h[k..];
      }
    } else {
      LowerEqualsIff(host, suffix);
    }
  }

  /** Respelling the case of a domain changes neither its labels nor what it matches. */
  lemma CaseDoesNotMatter(a: string, b: string)
    requires EqualIgnoringCase(a, b)
    ensures Labels(a) == Labels(b)
    ensures forall other :: IsSuffixOf(a, other) == IsSuffixOf(b, other)
    ensures forall other :: IsSuffixOf(other, a) == IsSuffixOf(other, b)
  {
    hide Labels;
    LowerEqualsIff(a, b);
    LabelsAreReversedSplit(a);
    LabelsAreReversedSplit(b);
  }
}
