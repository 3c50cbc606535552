/**
  Whole control sequences on the terminal of linux-0.11/kernel/chr_drv/console.c: what is written as
  ESC [ number ; ... ; number final is taken apart into these numbers and that final character.
*/
module ControlSequences {
  import opened Bytes
  import opened Screen

  /** n in decimal, as characters. */
  function Decimal(n: nat): (d: seq<int>)
    ensures d != [] && forall k | 0 <= k < |d| :: '0' as int <= d[k] <= '9' as int
  {
    if n < 10 then ['0' as int + n] else Decimal(n / 10) + ['0' as int + n % 10]
  }

  lemma {:induction false} PutAllConcat(t: Term, a: seq<int>, b: seq<int>, erase: nat)
    requires TermOk(t)
    ensures PutAll(t, a + b, erase) == PutAll(PutAll(t, a, erase), b, erase)
  {
    hide TermOk, Put;
    if b == [] {
      assert a + b == a;
    } else {
      assert (a + b)[..|a + b| - 1] == a + b[..|b| - 1];
      PutAllConcat(t, a, b[..|b| - 1], erase);
    }
  }

  lemma PutOne(t: Term, c: int, erase: nat)
    requires TermOk(t)
    ensures PutAll(t, [c], erase) == Put(t, c, erase)
  {
    assert [c][..0] == [];
  }

  /** A parameter of a control sequence ends up with the number written. */
  lemma {:induction false} NumberRead(t: Term, n: nat, erase: nat)
    requires TermOk(t) && t.state == 3 && t.par[t.npar] == 0 && n < 0x1_0000_0000
    ensures PutAll(t, Decimal(n), erase) == t.(par := t.par[t.npar := n])
  {
    hide Put, TermOk;
    if n < 10 {
      DigitRead(t, n, erase);
      PutOne(t, '0' as int + n, erase);
    } else {
      NumberRead(t, n / 10, erase);
      PutAllConcat(t, Decimal(n / 10), ['0' as int + n % 10], erase);
      var u := PutAll(t, Decimal(n / 10), erase);
      DigitRead(t, 0, erase);
      DigitRead(u, n % 10, erase);
      PutOne(u, '0' as int + n % 10, erase);
      assert u.par[u.npar := n] == t.par[t.npar := n];
    }
  }

  lemma DigitRead(t: Term, d: nat, erase: nat)
    requires TermOk(t) && t.state == 3 && d < 10
    ensures |t.par| == NPAR && t.npar < NPAR
    ensures Put(t, '0' as int + d, erase) == t.(par := t.par[t.npar := Unsigned(10 * t.par[t.npar] + d)])
  {
    hide Dispatch;
  }

  /** The terminal when a control sequence has been introduced and nothing of it read. */
  function Introduced(t: Term): Term {
    t.(npar := 0, par := seq(NPAR, _ => 0), state := 3)
  }

  /** After ESC [ the first character of the sequence finds the parameters cleared. */
  lemma {:induction false} FirstClears(t: Term, cs: seq<int>, erase: nat)
    requires TermOk(t) && t.state == 2 && cs != [] && cs[0] != '?' as int
    ensures TermOk(Introduced(t)) && PutAll(t, cs, erase) == PutAll(Introduced(t), cs, erase)
  {
    hide Dispatch;
    if |cs| == 1 {
      assert cs == [cs[0]];
      PutOne(t, cs[0], erase);
      PutOne(Introduced(t), cs[0], erase);
    } else {
      FirstClears(t, cs[..|cs| - 1], erase);
    }
  }

  lemma Introducer(t: Term, rest: seq<int>, erase: nat)
    requires TermOk(t) && t.state == 0 && rest != [] && rest[0] != '?' as int
    ensures TermOk(Introduced(t)) && PutAll(t, [27, '[' as int] + rest, erase) == PutAll(Introduced(t), rest, erase)
  {
    PutAllConcat(t, [27, '[' as int], rest, erase);
    assert [27, '[' as int] == [27] + ['[' as int];
    PutAllConcat(t, [27], ['[' as int], erase);
    PutOne(t, 27, erase);
    var s := t.(state := 1);
    assert Put(t, 27, erase) == s;
    PutOne(s, '[' as int, erase);
    var u := t.(state := 2);
    assert Put(s, '[' as int, erase) == u;
    FirstClears(u, rest, erase);
    assert Introduced(u) == Introduced(t);
  }

  // ----- Parameters -----

  /** The number written, or no number, which counts as 0. */
  predicate Denotes(digits: seq<int>, n: Word32) {
    digits == Decimal(n) || (digits == [] && n == 0)
  }

  /** Parameters with semicolons between them. */
  function Joined(ds: seq<seq<int>>): seq<int>
    requires ds != []
  {
    if |ds| == 1 then ds[0] else Joined(ds[..|ds| - 1]) + ([';' as int] + ds[|ds| - 1])
  }

  /** ESC [ parameters final. */
  function Csi(ds: seq<seq<int>>, final: int): seq<int>
    requires ds != []
  {
    [27, '[' as int] + (Joined(ds) + [final])
  }

  ghost predicate Written(ds: seq<seq<int>>, ns: seq<Word32>) {
    1 <= |ds| == |ns| <= NPAR && forall k | 0 <= k < |ds| :: Denotes(ds[k], ns[k])
  }

  lemma OneRead(t: Term, digits: seq<int>, n: Word32, erase: nat)
    requires TermOk(t) && t.state == 3 && t.par[t.npar] == 0 && Denotes(digits, n)
    ensures PutAll(t, digits, erase) == t.(par := t.par[t.npar := n])
  {
    if digits == [] {
      assert t.par[t.npar := 0] == t.par;
    } else {
      NumberRead(t, n, erase);
    }
  }

  /** The numbers written end up in par[], and npar counts the semicolons. */
  lemma {:induction false} ParametersRead(t: Term, ds: seq<seq<int>>, ns: seq<Word32>, erase: nat)
    requires TermOk(t) && t.state == 3 && t.npar == 0 && t.par == seq(NPAR, _ => 0) && Written(ds, ns)
    ensures PutAll(t, Joined(ds), erase) == t.(npar := |ns| - 1, par := ns + seq(NPAR - |ns|, _ => 0))
  {
    hide TermOk, Put;
    var k := |ds| - 1;
    if k == 0 {
      OneRead(t, ds[0], ns[0], erase);
      assert t.par[0 := ns[0]] == ns + seq(NPAR - 1, _ => 0);
    } else {
      var u := t.(npar := k - 1, par := ns[..k] + seq(NPAR - k, _ => 0));
      ParametersRead(t, ds[..k], ns[..k], erase);
      PutAllConcat(t, Joined(ds[..k]), [';' as int] + ds[k], erase);
      PutAllConcat(u, [';' as int], ds[k], erase);
      PutOne(u, ';' as int, erase);
      SemicolonRead(u, erase);
      var v := u.(npar := k);
      OneRead(v, ds[k], ns[k], erase);
      assert v.par[k := ns[k]] == ns + seq(NPAR - |ns|, _ => 0);
    }
  }

  lemma SemicolonRead(t: Term, erase: nat)
    requires TermOk(t) && t.state == 3 && t.npar < NPAR - 1
    ensures TermOk(t.(npar := t.npar + 1)) && Put(t, ';' as int, erase) == t.(npar := t.npar + 1)
  {
    hide Dispatch;
  }

  /** The terminal at the final character of a sequence with these parameters. */
  function AtFinal(t: Term, ns: seq<Word32>): Term
    requires 1 <= |ns| <= NPAR
  {
    t.(state := 0, npar := |ns| - 1, par := ns + seq(NPAR - |ns|, _ => 0))
  }

  /** A whole sequence does what its final character (section 5.4 of ECMA-48) does with these parameters. */
  lemma SequenceRead(t: Term, ds: seq<seq<int>>, ns: seq<Word32>, final: int, erase: nat)
    requires TermOk(t) && t.state == 0 && Written(ds, ns) && 64 <= final < 127
    ensures TermOk(AtFinal(t, ns)) && PutAll(t, Csi(ds, final), erase) == Dispatch(AtFinal(t, ns), final)
  {
    hide Dispatch, Put, Joined;
    var u, z := Introduced(t), AtFinal(t, ns).(state := 3);
    assert TermOk(u) && TermOk(z) && TermOk(AtFinal(t, ns));
    FirstOfSequence(ds, ns, final);
    Introducer(t, Joined(ds) + [final], erase);
    PutAllConcat(u, Joined(ds), [final], erase);
    ParametersRead(u, ds, ns, erase);
    assert PutAll(u, Joined(ds), erase) == z;
    PutOne(z, final, erase);
    FinalRead(z, final, erase);
    assert z.(state := 0) == AtFinal(t, ns);
  }

  lemma FinalRead(t: Term, final: int, erase: nat)
    requires TermOk(t) && t.state == 3 && 64 <= final < 127
    ensures |t.par| == NPAR && t.npar < NPAR && Put(t, final, erase) == Dispatch(t.(state := 0), final)
  {
    hide Dispatch;
  }

  lemma {:induction false} FirstOfSequence(ds: seq<seq<int>>, ns: seq<Word32>, final: int)
    requires Written(ds, ns) && 64 <= final < 127
    ensures (Joined(ds) + [final])[0] != '?' as int
  {
    var k := |ds| - 1;
    if k == 0 {
      assert Denotes(ds[0], ns[0]);
    } else {
      FirstOfSequence(ds[..k], ns[..k], final);
      if Joined(ds[..k]) != [] {
        assert (Joined(ds[..k]) + [final])[0] == Joined(ds[..k])[0];
      }
    }
  }

  // ----- Text -----

  /** Text that fits in the row of the cursor stands there afterwards, in the current attribute. */
  lemma {:induction false} TextShown(t: Term, text: seq<int>, erase: nat)
    requires TermOk(t) && t.state == 0 && (forall c | c in text :: 31 < c < 127) && t.x + |text| <= t.cols
    ensures var r := PutAll(t, text, erase);
      && r == t.(x := t.x + |text|, screen := r.screen) && |r.screen| == |t.screen| && Place(t) + |text| <= |t.screen|
      && forall i | 0 <= i < |t.screen| ::
           r.screen[i] == if Place(t) <= i < Place(t) + |text| then 256 * t.attr + text[i - Place(t)] else t.screen[i]
  {
    RowFits(t.y, t.rows, t.cols);
    if text != [] {
      var k := |text| - 1;
      assert forall c | c in text[..k] :: c in text;
      TextShown(t, text[..k], erase);
      assert text[k] in text;
    }
  }
}
