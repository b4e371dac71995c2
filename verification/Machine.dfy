/** The 16-bit machine both the stub and the debuggee live on: bytes, words,
    a 64K memory and little-endian words in it. */
module Machine {

  type byte = bv8

  type word = x: int | 0 <= x < 0x1_0000

  type Memory = m: seq<byte> | |m| == 0x1_0000 witness seq(0x1_0000, _ => 0)

  /** The opcode of RST 08, the stub's breakpoint instruction. */
  const RST08: byte := 0xCF

  /** 16-bit pointer arithmetic wraps. */
  function Wrap(x: int): word {
    x % 0x1_0000
  }

  function Inc(a: word): word {
    Wrap(a + 1)
  }

  lemma IncBack(a: word)
    ensures Wrap(Inc(a) - 1) == a
  {
  }

  predicate HasValue(b: byte, n: int) {
    b as int == n
  }

  lemma {:induction false} SomeByte(n: int) returns (b: byte)
    requires 0 <= n < 256
    ensures HasValue(b, n)
  {
    if n == 0 {
      b := 0;
    } else {
      var c := SomeByte(n - 1);
      b := c + 1;
    }
  }

  lemma SameValue(b: byte, c: byte)
    requires b as int == c as int
    ensures b == c
  {
  }

  /** The byte with value `n`. */
  function ByteOf(n: int): (b: byte)
    requires 0 <= n < 256
    ensures b as int == n
  {
    assert exists b: byte :: HasValue(b, n) by {
      var b := SomeByte(n);
    }
    assert forall b: byte, c: byte :: HasValue(b, n) && HasValue(c, n) ==> b == c;
    var b: byte :| HasValue(b, n);
    b
  }

  function Word(lo: byte, hi: byte): word {
    lo as int + 256 * hi as int
  }

  function Low(w: word): byte {
    ByteOf(w % 256)
  }

  function High(w: word): byte {
    ByteOf(w / 256)
  }

  function WordAt(m: Memory, a: word): word {
    Word(m[a], m[Wrap(a + 1)])
  }

  function SetWord(m: Memory, a: word, w: word): Memory {
    m[a := Low(w)][Wrap(a + 1) := High(w)]
  }

  lemma DigitsOf256(lo: int, hi: int, lo': int, hi': int)
    requires 0 <= lo < 256 && 0 <= lo' < 256 && lo + 256 * hi == lo' + 256 * hi'
    ensures lo == lo' && hi == hi'
  {
  }

  lemma WordIsItsBytes(lo: byte, hi: byte, lo': byte, hi': byte)
    requires Word(lo, hi) == Word(lo', hi')
    ensures lo == lo' && hi == hi'
  {
    DigitsOf256(lo as int, hi as int, lo' as int, hi' as int);
    SameValue(lo, lo');
    SameValue(hi, hi');
  }

  lemma WordOfBytes(w: word)
    ensures Word(Low(w), High(w)) == w
  {
  }

  lemma WordAtSetWord(m: Memory, a: word, w: word)
    ensures WordAt(SetWord(m, a, w), a) == w
  {
    assert a != Wrap(a + 1);
  }

  // ---- adding bytes ----

  function Plus(x: byte, y: byte): byte {
    x + y
  }

  function Succ(x: byte): byte {
    x + 1
  }

  function Pred(x: byte): byte {
    x - 1
  }

  lemma NextOf(x: byte)
    ensures Succ(x) as int == if x as int == 255 then 0 else x as int + 1
  {
  }

  lemma PlusNext(x: byte, y: byte)
    ensures Plus(x, Succ(y)) == Succ(Plus(x, y)) && Plus(x, 0) == x && Succ(Pred(y)) == y
  {
  }

  lemma NextModulo(a: nat)
    ensures (a + 1) % 256 == if a % 256 == 255 then 0 else a % 256 + 1
  {
  }

  lemma PredOf(y: byte, n: nat)
    requires y as int == n > 0
    ensures Succ(Pred(y)) == y && Pred(y) as int == n - 1
  {
    PlusNext(0, y);
    NextOf(Pred(y));
  }

  lemma {:induction false} AddBytes(x: byte, y: byte, n: nat)
    requires y as int == n
    ensures Plus(x, y) as int == (x as int + n) % 256
    decreases n
  {
    if n == 0 {
      SameValue(y, 0);
    } else {
      PredOf(y, n);
      AddBytes(x, Pred(y), n - 1);
      AddNext(x, Pred(y), y, n);
    }
  }

  lemma AddNext(x: byte, z: byte, y: byte, n: nat)
    requires n > 0 && Succ(z) == y && Plus(x, z) as int == (x as int + (n - 1)) % 256
    ensures Plus(x, y) as int == (x as int + n) % 256
  {
    hide Plus, Succ;
    PlusNext(x, z);
    NextOf(Plus(x, z));
    NextModulo(x as int + (n - 1));
  }

  lemma AddModulo(x: nat, y: nat)
    ensures (x % 256 + y) % 256 == (x + y) % 256
  {
  }
}
