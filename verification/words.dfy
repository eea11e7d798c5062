/** Fixed-width machine values, the optional-value wrapper, and the
    big-endian byte/word conversions shared by the rest of the model. */
module Words {

  type u8 = x: int | 0 <= x < 0x100
  type u16 = x: int | 0 <= x < 0x1_0000
  type u32 = x: int | 0 <= x < 0x1_0000_0000

  /** A 16-byte IPv6 address in network byte order (`struct in6_addr`). */
  type Addr6 = s: seq<u8> | |s| == 16 witness seq(16, _ => 0)

  /** An IPv4 address as the 32-bit value stored in an `in_addr_t`. */
  type Addr4 = u32

  datatype Option<+T> = None | Some(value: T)

  /** The big-endian 32-bit word stored at `s[off..off+4]`. */
  function BeWord(s: seq<u8>, off: nat): (w: u32)
    requires off + 4 <= |s|
  {
    s[off] as int * 0x100_0000 + s[off + 1] as int * 0x1_0000 + s[off + 2] as int * 0x100 + s[off + 3] as int
  }

  /** The four bytes of `w`, most significant first. */
  function WordBytes(w: u32): (b: seq<u8>)
    ensures |b| == 4
  {
    [w / 0x100_0000, (w / 0x1_0000) % 0x100, (w / 0x100) % 0x100, w % 0x100]
  }

  /** Encoding the word read at `off` gives back exactly the four bytes read. */
  lemma WordBytesOfBeWord(s: seq<u8>, off: nat)
    requires off + 4 <= |s|
    ensures WordBytes(BeWord(s, off)) == s[off..off + 4]
  {
    var a: int, b: int, c: int, d: int := s[off], s[off + 1], s[off + 2], s[off + 3];
    var w := BeWord(s, off);
    var lo := b * 0x1_0000 + c * 0x100 + d;
    assert 0 <= lo < 0x100_0000;
    assert w == a * 0x100_0000 + lo;
    assert w / 0x100_0000 == a;
    var mid := c * 0x100 + d;
    assert w / 0x1_0000 == a * 0x100 + b by {
      assert w == (a * 0x100 + b) * 0x1_0000 + mid;
      assert 0 <= mid < 0x1_0000;
    }
    assert w / 0x100 == (a * 0x100 + b) * 0x100 + c by {
      assert w == ((a * 0x100 + b) * 0x100 + c) * 0x100 + d;
    }
    assert w % 0x100 == d by {
      assert w == ((a * 0x100 + b) * 0x100 + c) * 0x100 + d;
    }
  }

  /** Two big-endian words are equal exactly when their four bytes are. */
  lemma BeWordEqualIff(s: seq<u8>, i: nat, t: seq<u8>, j: nat)
    requires i + 4 <= |s| && j + 4 <= |t|
    ensures BeWord(s, i) == BeWord(t, j) <==> s[i..i + 4] == t[j..j + 4]
  {
    WordBytesOfBeWord(s, i);
    WordBytesOfBeWord(t, j);
    if s[i..i + 4] == t[j..j + 4] {
      assert s[i] == t[j] && s[i + 1] == t[j + 1] && s[i + 2] == t[j + 2] && s[i + 3] == t[j + 3] by {
        assert s[i..i + 4][0] == t[j..j + 4][0];
        assert s[i..i + 4][1] == t[j..j + 4][1];
        assert s[i..i + 4][2] == t[j..j + 4][2];
        assert s[i..i + 4][3] == t[j..j + 4][3];
      }
    }
  }

  /** The big-endian 16-bit value stored at `s[off..off+2]` (`ntohs`). */
  function Be16(s: seq<u8>, off: nat): (v: u16)
    requires off + 2 <= |s|
  {
    s[off] as int * 0x100 + s[off + 1] as int
  }

  /** The two bytes of `v`, most significant first (`htons`). */
  function Be16Bytes(v: u16): (b: seq<u8>)
    ensures |b| == 2
    ensures Be16(b, 0) == v
  {
    [v / 0x100, v % 0x100]
  }
}
