/** The byte keys of the database: big-endian numbers whose byte order is the numeric order. */
module DatabaseKeys {
  import opened Types
  import opened Configuration

  type Byte = b: nat | b < 256
  type Bytes = seq<Byte>

  function Pow256(n: nat): (p: nat)
    ensures 0 < p
  {
    if n == 0 then 1 else 256 * Pow256(n - 1)
  }

  /** The low `width` bytes of `n`, most significant first. */
  function BigEndian(n: nat, width: nat): (bytes: Bytes)
    ensures |bytes| == width
  {
    if width == 0 then [] else BigEndian(n / 256, width - 1) + [n % 256]
  }

  function ReadBigEndian(bytes: Bytes): nat {
    if bytes == [] then 0 else 256 * ReadBigEndian(bytes[..|bytes| - 1]) + bytes[|bytes| - 1]
  }

  /** The order in which the database keeps its keys. */
  predicate Before(a: Bytes, b: Bytes) {
    b != [] && (a == [] || a[0] < b[0] || (a[0] == b[0] && Before(a[1..], b[1..])))
  }

  /** Reading undoes writing for every number that fits. */
  lemma {:induction false} RoundTrip(n: nat, width: nat)
    requires n < Pow256(width)
    ensures ReadBigEndian(BigEndian(n, width)) == n
  {
    if width != 0 {
      assert n / 256 < Pow256(width - 1) && n == 256 * (n / 256) + n % 256;
      RoundTrip(n / 256, width - 1);
      assert BigEndian(n, width)[..width - 1] == BigEndian(n / 256, width - 1);
    }
  }

  lemma {:induction false} ReadBound(bytes: Bytes)
    ensures ReadBigEndian(bytes) < Pow256(|bytes|)
  {
    if bytes != [] {
      ReadBound(bytes[..|bytes| - 1]);
    }
  }

  /** The first byte is the most significant digit. */
  lemma {:induction false} ReadHead(bytes: Bytes)
    requires bytes != []
    ensures ReadBigEndian(bytes) == bytes[0] * Pow256(|bytes| - 1) + ReadBigEndian(bytes[1..])
  {
    var n := |bytes| - 1;
    if n != 0 {
      var init := bytes[..n];
      ReadHead(init);
      assert bytes[1..][..n - 1] == init[1..];
      calc {
        ReadBigEndian(bytes);
        256 * ReadBigEndian(init) + bytes[n];
        256 * (init[0] * Pow256(n - 1) + ReadBigEndian(init[1..])) + bytes[n];
        { assert 256 * (init[0] * Pow256(n - 1)) == init[0] * (256 * Pow256(n - 1)); }
        bytes[0] * Pow256(n) + ReadBigEndian(bytes[1..]);
      }
    }
  }

  lemma DigitsDecide(x: nat, r: nat, y: nat, s: nat, p: nat)
    requires r < p && s < p
    ensures x * p + r < y * p + s <==> x < y || (x == y && r < s)
  {
    if x < y {
      NextMultiple(x, y, p);
    } else if y < x {
      NextMultiple(y, x, p);
    }
  }

  lemma NextMultiple(x: nat, y: nat, p: nat)
    requires x < y
    ensures x * p + p <= y * p
  {
    if y != x + 1 {
      NextMultiple(x, y - 1, p);
    }
    assert y * p == (y - 1) * p + p;
  }

  /** On byte strings of equal length the byte order is the numeric order. */
  lemma {:induction false} OrderIsNumeric(a: Bytes, b: Bytes)
    requires |a| == |b|
    ensures Before(a, b) <==> ReadBigEndian(a) < ReadBigEndian(b)
  {
    if a != [] {
      ReadHead(a);
      ReadHead(b);
      ReadBound(a[1..]);
      ReadBound(b[1..]);
      OrderIsNumeric(a[1..], b[1..]);
      DigitsDecide(a[0], ReadBigEndian(a[1..]), b[0], ReadBigEndian(b[1..]), Pow256(|a| - 1));
    }
  }

  /** A longer key is ordered by its leading field first. */
  lemma {:induction false} LeadingFieldDecides(a: Bytes, x: Bytes, b: Bytes, y: Bytes)
    requires |a| == |b| && a != b
    ensures Before(a + x, b + y) <==> Before(a, b)
  {
    if a != [] {
      assert (a + x)[1..] == a[1..] + x && (b + y)[1..] == b[1..] + y;
      if a[0] == b[0] {
        assert a == [a[0]] + a[1..] && b == [b[0]] + b[1..];
        LeadingFieldDecides(a[1..], x, b[1..], y);
      }
    }
  }

  /**
   * Keys that start with an 8-byte number are kept in the order of that number: pruning from the
   * first key while the number is too small reaches every key it should.
   */
  lemma KeysInLeadingOrder(m: nat, x: Bytes, n: nat, y: Bytes)
    requires m < Pow256(8) && n < Pow256(8)
    requires Before(BigEndian(m, 8) + x, BigEndian(n, 8) + y)
    ensures m <= n
  {
    RoundTrip(m, 8);
    RoundTrip(n, 8);
    if BigEndian(m, 8) != BigEndian(n, 8) {
      LeadingFieldDecides(BigEndian(m, 8), x, BigEndian(n, 8), y);
      OrderIsNumeric(BigEndian(m, 8), BigEndian(n, 8));
    }
  }

  // ---- The key types ----

  /** Two bytes of target modulo the history length, five bytes of validator index. */
  function AttesterKey(v: Validator, target: Epoch, config: Config): Bytes
    requires config.Valid()
  {
    BigEndian(target % config.historyLength, 2) + BigEndian(v, 5)
  }

  /** The target comes first, the validator second. */
  lemma AttesterKeyFields(v: Validator, t: Epoch, config: Config)
    requires config.Valid() && v < Pow256(5)
    ensures var key := AttesterKey(v, t, config);
            |key| == 7 && ReadBigEndian(key[..2]) == t % config.historyLength && ReadBigEndian(key[2..]) == v
  {
    assert Pow256(2) == 65536 by { assert Pow256(1) == 256; }
    RoundTrip(t % config.historyLength, 2);
    RoundTrip(v, 5);
    assert AttesterKey(v, t, config)[..2] == BigEndian(t % config.historyLength, 2);
    assert AttesterKey(v, t, config)[2..] == BigEndian(v, 5);
  }

  /** The attester key is a faithful name for (target modulo history length, validator). */
  lemma AttesterKeyInjective(v: Validator, t: Epoch, v': Validator, t': Epoch, config: Config)
    requires config.Valid() && v < Pow256(5) && v' < Pow256(5)
    ensures AttesterKey(v, t, config) == AttesterKey(v', t', config) <==>
              v == v' && t % config.historyLength == t' % config.historyLength
  {
    AttesterKeyFields(v, t, config);
    AttesterKeyFields(v', t', config);
  }

  /** Eight bytes of slot, eight bytes of proposer index. */
  datatype ProposerKey = ProposerKey(data: Bytes) {
    static function New(proposer: Validator, slot: nat): ProposerKey {
      ProposerKey(BigEndian(slot, 8) + BigEndian(proposer, 8))
    }

    static function Parse(data: Bytes): Option<(nat, Validator)> {
      if |data| == 16 then Some((ReadBigEndian(data[..8]), ReadBigEndian(data[8..]))) else None
    }

    static lemma RoundTrips(proposer: Validator, slot: nat)
      requires proposer < Pow256(8) && slot < Pow256(8)
      ensures Parse(New(proposer, slot).data) == Some((slot, proposer))
    {
      RoundTrip(slot, 8);
      RoundTrip(proposer, 8);
      assert New(proposer, slot).data[..8] == BigEndian(slot, 8);
      assert New(proposer, slot).data[8..] == BigEndian(proposer, 8);
    }
  }

  /** Eight bytes of target epoch, then the 32 bytes of the attestation's root. */
  datatype IndexedAttestationIdKey = IndexedAttestationIdKey(data: Bytes) {
    static function New(target: Epoch, root: Bytes): IndexedAttestationIdKey {
      IndexedAttestationIdKey(BigEndian(target, 8) + root)
    }

    static function Parse(data: Bytes): Option<(Epoch, Bytes)> {
      if |data| == 40 then Some((ReadBigEndian(data[..8]), data[8..])) else None
    }

    static lemma RoundTrips(target: Epoch, root: Bytes)
      requires target < Pow256(8) && |root| == 32
      ensures Parse(New(target, root).data) == Some((target, root))
    {
      RoundTrip(target, 8);
      assert New(target, root).data[..8] == BigEndian(target, 8);
      assert New(target, root).data[8..] == root;
    }

    /** Whichever key comes first in the table has the smallest target. */
    static lemma OrderedByTarget(target: Epoch, root: Bytes, target': Epoch, root': Bytes)
      requires target < Pow256(8) && target' < Pow256(8)
      requires New(target, root) == New(target', root') || Before(New(target, root).data, New(target', root').data)
      ensures target <= target'
    {
      if New(target, root) == New(target', root') {
        assert New(target, root).data[..8] == BigEndian(target, 8) && New(target', root').data[..8] == BigEndian(target', 8);
        RoundTrip(target, 8);
        RoundTrip(target', 8);
      } else {
        KeysInLeadingOrder(target, root, target', root');
      }
    }
  }
}
