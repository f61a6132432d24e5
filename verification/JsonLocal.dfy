/**
 Scanning is local: a construct that takes `n` bytes of a buffer takes the same `n` bytes of any
 shorter buffer that still holds them. This is what lets the decoder scan an element a second time in
 a buffer that ends where its container's content ends.
 */
module JsonLocal {
  import opened Common
  import opened JsonGrammar
  import opened JsonScan
  import opened JsonScanProof

  lemma Cut(s: bytes, k: nat, m: nat)
    requires k <= m <= |s|
    ensures s[..m][k..] == s[k..][..m - k]
  {
  }

  lemma {:induction false} WsLocal(s: bytes, m: nat)
    requires WsLen(s) <= m <= |s|
    ensures WsLen(s[..m]) == WsLen(s)
  {
    if s != [] && IsSpace(s[0]) {
      WsLocal(s[1..], m - 1);
      Cut(s, 1, m);
    }
  }

  lemma {:induction false} DigitsLocal(s: bytes, m: nat)
    requires m <= |s|
    ensures DigitsLen(s) <= m ==> DigitsLen(s[..m]) == DigitsLen(s)
    ensures DigitsLen(s) == 0 ==> DigitsLen(s[..m]) == 0
  {
    if s != [] && IsDigit(s[0]) && m > 0 {
      DigitsLocal(s[1..], m - 1);
      Cut(s, 1, m);
    }
  }

  lemma CharLocal(s: bytes, m: nat)
    requires m <= |s|
    ensures CharLen(s) <= m ==> CharLen(s[..m]) == CharLen(s)
  {
    var t := s[..m];
    assert CodepointLen(s) <= m ==> CodepointLen(t) == CodepointLen(s) by {
      var n := if s == [] then 0 else Utf8Len(s[0]);
      if |t| >= n {
        assert forall i :: 1 <= i < n ==> t[i] == s[i];
      }
    }
    assert CodepointLen(s) == 0 ==> CodepointLen(t) == 0;
  }

  lemma {:induction false} CharsLocal(s: bytes, m: nat)
    requires CharsLen(s) <= m <= |s|
    ensures CharsLen(s[..m]) == CharsLen(s)
    decreases |s|
  {
    var c := CharLen(s);
    CharLocal(s, m);
    if c > 0 {
      CharsLocal(s[c..], m - c);
      Cut(s, c, m);
    }
  }

  lemma StrLocal(s: bytes, m: nat)
    requires 0 < StrLen(s) <= m <= |s|
    ensures StrLen(s[..m]) == StrLen(s)
  {
    CharsLocal(s[1..], m - 1);
    Cut(s, 1, m);
  }

  lemma IntLocal(s: bytes, m: nat)
    requires 0 < IntLen(s) <= m <= |s|
    ensures IntLen(s[..m]) == IntLen(s)
  {
    var g := SignLen(s);
    Cut(s, g, m);
    var t := s[g..];
    DigitsLocal(t[1..], m - g - 1);
    Cut(t, 1, m - g);
  }

  lemma FracLocal(s: bytes, m: nat)
    requires m <= |s|
    ensures FracLen(s) <= m ==> FracLen(s[..m]) == FracLen(s)
  {
    if s != [] && m > 0 {
      DigitsLocal(s[1..], m - 1);
      Cut(s, 1, m);
    }
  }

  lemma ExpLocal(s: bytes, m: nat)
    requires m <= |s|
    ensures ExpLen(s) <= m ==> ExpLen(s[..m]) == ExpLen(s)
  {
    if m > 0 {
      var g := ExpSignLen(s[1..]);
      Cut(s, 1, m);
      if 1 + g <= m {
        Cut(s, 1 + g, m);
        DigitsLocal(s[1 + g..], m - 1 - g);
      }
    }
  }

  lemma NumLocal(s: bytes, m: nat)
    requires 0 < NumLen(s) <= m <= |s|
    ensures NumLen(s[..m]) == NumLen(s)
    ensures IntLen(s[..m]) == IntLen(s)
  {
    hide IntLen, FracLen, ExpLen;
    var i := IntLen(s);
    IntLocal(s, m);
    Cut(s, i, m);
    FracLocal(s[i..], m - i);
    var f := FracLen(s[i..]);
    Cut(s, i + f, m);
    ExpLocal(s[i + f..], m - i - f);
  }

  lemma StartsLocal(s: bytes, t: bytes, m: nat)
    requires m <= |s|
    ensures |t| <= m ==> (StartsWith(s[..m], t) <==> StartsWith(s, t))
    ensures !StartsWith(s, t) ==> !StartsWith(s[..m], t)
  {
    if |t| <= m {
      assert s[..m][..|t|] == s[..|t|];
    }
  }

  lemma {:induction false} ValLocal(s: bytes, m: nat)
    requires Val(s).Some? && Val(s).value.n <= m <= |s|
    ensures Val(s[..m]) == Val(s)
    decreases |s|, 2
  {
    hide Core, WsLen;
    var w := WsLen(s);
    var t := s[w..];
    var c := Core(t).value;
    WsLocal(s, m);
    Cut(s, w, m);
    CoreLocal(t, m - w);
    Cut(s, w + c.n, m);
    WsLocal(s[w + c.n..], m - w - c.n);
  }

  lemma {:induction false} CoreLocal(s: bytes, m: nat)
    requires Core(s).Some? && Core(s).value.n <= m <= |s|
    ensures Core(s[..m]) == Core(s)
    decreases |s|, 1
  {
    hide Elems, Members, WsLen, StrLen, NumLen, StartsWith;
    if s[0] == 0x22 {
      StrLocal(s, m);
    } else if s[0] == 0x2D || IsDigit(s[0]) {
      NumLocal(s, m);
    } else if s[0] == 0x7B {
      ObjectLocal(s, m);
    } else if s[0] == 0x5B {
      ArrayLocal(s, m);
    } else {
      StartsLocal(s, TRUE_TEXT, m);
      StartsLocal(s, FALSE_TEXT, m);
      StartsLocal(s, NULL_TEXT, m);
    }
  }

  lemma {:induction false} ObjectLocal(s: bytes, m: nat)
    requires s != [] && s[0] == 0x7B && Core(s).Some? && Core(s).value.n <= m <= |s|
    ensures Core(s[..m]) == Core(s)
    decreases |s|, 0
  {
    hide Core, Members, WsLen, Enclosed;
    CoreObject(s);
    var start := 1 + WsLen(s[1..]);
    var b := s[start..];
    EnclosedLocal(s, m, TObject, 0x7D, Members(b));
    CoreObject(s[..m]);
    if Members(b).Some? {
      MembersLocal(b, m - start);
    } else {
      CloserIsNoMember(b[..m - start]);
    }
  }

  lemma {:induction false} ArrayLocal(s: bytes, m: nat)
    requires s != [] && s[0] == 0x5B && Core(s).Some? && Core(s).value.n <= m <= |s|
    ensures Core(s[..m]) == Core(s)
    decreases |s|, 0
  {
    hide Core, Elems, WsLen, Enclosed;
    CoreArray(s);
    var start := 1 + WsLen(s[1..]);
    var b := s[start..];
    EnclosedLocal(s, m, TArray, 0x5D, Elems(b));
    CoreArray(s[..m]);
    if Elems(b).Some? {
      ElemsLocal(b, m - start);
    } else {
      CloserIsNoMember(b[..m - start]);
    }
  }

  lemma CoreObject(s: bytes)
    requires s != [] && s[0] == 0x7B
    ensures Core(s) == Enclosed(s, TObject, 0x7D, Members(s[1 + WsLen(s[1..])..]))
  {
    hide WsLen, Elems, Members, Enclosed, StrLen, NumLen;
  }

  lemma CoreArray(s: bytes)
    requires s != [] && s[0] == 0x5B
    ensures Core(s) == Enclosed(s, TArray, 0x5D, Elems(s[1 + WsLen(s[1..])..]))
  {
    hide WsLen, Elems, Members, Enclosed, StrLen, NumLen;
  }

  lemma CloserIsNoMember(s: bytes)
    requires s != [] && (s[0] == 0x5D || s[0] == 0x7D)
    ensures Elems(s) == None && Members(s) == None
  {
    CloserIsNoValue(s);
  }

  lemma EnclosedLocal(s: bytes, m: nat, ty: JsonType, close: byte, content: Option<Extent>)
    requires s != [] && m <= |s| && (content.Some? ==> content.value.n <= |s| - 1 - WsLen(s[1..]))
    requires var r := Enclosed(s, ty, close, content); r.Some? && r.value.n <= m
    ensures var start := 1 + WsLen(s[1..]);
            && start <= m && s[..m] != [] && WsLen(s[..m][1..]) == WsLen(s[1..]) && s[..m][start..] == s[start..][..m - start]
            && (content.Some? ==> start + content.value.n <= m)
            && Enclosed(s[..m], ty, close, content) == Enclosed(s, ty, close, content)
            && (content.None? ==> s[start..] != [] && m > start && s[start..][..m - start][0] == close)
  {
    var start := 1 + WsLen(s[1..]);
    Cut(s, 1, m);
    WsLocal(s[1..], m - 1);
    Cut(s, start, m);
  }

  lemma {:induction false} ElemsLocal(s: bytes, m: nat)
    requires Elems(s).Some? && Elems(s).value.n <= m <= |s|
    ensures Elems(s[..m]) == Elems(s)
    decreases |s|, 3
  {
    hide Val, Elems;
    ElemsUnfold(s);
    ElemsUnfold(s[..m]);
    var v := Val(s).value;
    ValLocal(s, m);
    if v.n < |s| && s[v.n] == 0x2C {
      Cut(s, v.n + 1, m);
      ElemsLocal(s[v.n + 1..], m - v.n - 1);
    }
  }

  lemma {:induction false} KvLocal(s: bytes, m: nat)
    requires 0 < KvLen(s) <= m <= |s|
    ensures KvLen(s[..m]) == KvLen(s)
    decreases |s|, 3
  {
    hide Val, StrLen, WsLen;
    var k := StrLen(s);
    StrLocal(s, m);
    Cut(s, k, m);
    var w := k + WsLen(s[k..]);
    WsLocal(s[k..], m - k);
    Cut(s, w + 1, m);
    ValLocal(s[w + 1..], m - w - 1);
  }

  lemma {:induction false} KvCommaLocal(s: bytes, m: nat)
    requires 0 < KvLen(s) <= m <= |s|
    ensures KvCommaLen(s) <= m ==> KvCommaLen(s[..m]) == KvCommaLen(s)
    decreases |s|, 4
  {
    hide KvLen, WsLen;
    var k := KvLen(s);
    KvLocal(s, m);
    if k < m {
      Cut(s, k + 1, m);
      if k + 1 + WsLen(s[k + 1..]) <= m {
        WsLocal(s[k + 1..], m - k - 1);
      }
    }
  }

  lemma {:induction false} MembersLocal(s: bytes, m: nat)
    requires Members(s).Some? && Members(s).value.n <= m <= |s|
    ensures Members(s[..m]) == Members(s)
    decreases |s|, 5
  {
    hide KvLen, KvCommaLen;
    var k, w := KvLen(s), KvCommaLen(s);
    KvCommaReaches(s);
    KvLocal(s, m);
    KvCommaLocal(s, m);
    if w > 0 {
      Cut(s, w, m);
      MembersLocal(s[w..], m - w);
    }
  }

  lemma KvCommaReaches(s: bytes)
    ensures KvCommaLen(s) > 0 ==> KvLen(s) < KvCommaLen(s)
  {
  }
}
