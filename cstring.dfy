/** The string and memory functions of include/string.h. They are inline
    assembly over i386 string instructions; the model gives each its C
    meaning. A query reads the bytes from its pointer to the end of
    memory, given as a sequence; a function that writes works on memory
    as an array, with pointers as indices into it. Comparisons use jl
    after cmpsb/scasb, so bytes compare as signed chars. */
module CString {
  import opened Util
  import opened FsDefs

  /** The byte as the signed char the comparison sees. */
  function SChar(b: Byte): (r: int)
    ensures -128 <= r < 128
  {
    if b < 128 then b else b - 256
  }

  /** A NUL-terminated string starts at the front of s. */
  predicate CStr(s: seq<Byte>)
  {
    0 in s
  }

  /** strlen(s): the bytes before the first NUL. */
  function Strlen(s: seq<Byte>): (r: nat)
    requires CStr(s)
    ensures r < |s| && s[r] == 0 && forall j :: 0 <= j < r ==> s[j] != 0
  {
    if s[0] == 0 then 0
    else
      assert 0 in s[1..] by {
        var k :| 0 <= k < |s| && s[k] == 0;
        assert s[1..][k - 1] == 0;
      }
      1 + Strlen(s[1..])
  }

  /** The string with its terminating NUL. */
  function Z(s: seq<Byte>): (r: seq<Byte>)
    requires CStr(s)
    ensures |r| == Strlen(s) + 1 && r[|r| - 1] == 0 && r == s[..|r|]
  {
    s[..Strlen(s) + 1]
  }

  /** strcmp(cs, ct): 0 at a common NUL, else the sign of the first
      differing byte of cs against ct. */
  function Strcmp(cs: seq<Byte>, ct: seq<Byte>): (r: int)
    requires CStr(cs) && CStr(ct)
    decreases Strlen(cs)
  {
    if cs[0] != ct[0] then (if SChar(ct[0]) < SChar(cs[0]) then 1 else -1)
    else if cs[0] == 0 then 0
    else Strcmp(cs[1..], ct[1..])
  }

  /** a and b first differ at i. */
  predicate DifferAt(a: seq<Byte>, b: seq<Byte>, i: int)
  {
    0 <= i < |a| && i < |b| && a[..i] == b[..i] && a[i] != b[i]
  }

  /** strcmp returns 0 exactly for equal strings and otherwise 1 or -1 as
      the first differing byte (the NUL counting as a byte) of cs is
      greater or smaller. */
  lemma {:induction false} StrcmpMeans(cs: seq<Byte>, ct: seq<Byte>)
    requires CStr(cs) && CStr(ct)
    ensures var r := Strcmp(cs, ct);
      (r == 0 <==> Z(cs) == Z(ct)) &&
      (r != 0 ==> exists i :: DifferAt(Z(cs), Z(ct), i) &&
                              (r == 1 <==> SChar(Z(cs)[i]) > SChar(Z(ct)[i])) && (r == 1 || r == -1))
    decreases Strlen(cs)
  {
    var a, b := Z(cs), Z(ct);
    if cs[0] != ct[0] {
      assert DifferAt(a, b, 0);
      assert a != b by { assert a[0] != b[0]; }
    } else if cs[0] == 0 {
      assert a == [0] == b;
    } else {
      StrcmpMeans(cs[1..], ct[1..]);
      ZCons(cs);
      ZCons(ct);
      var r := Strcmp(cs, ct);
      if r != 0 {
        var a', b' := Z(cs[1..]), Z(ct[1..]);
        var i :| DifferAt(a', b', i) && (r == 1 <==> SChar(a'[i]) > SChar(b'[i])) && (r == 1 || r == -1);
        DifferCons(cs[0], a', b', i);
      }
    }
  }

  /** A string that does not start with its NUL is its first byte before
      the rest. */
  lemma ZCons(s: seq<Byte>)
    requires CStr(s) && s[0] != 0
    ensures CStr(s[1..]) && Z(s) == [s[0]] + Z(s[1..])
  {
    var k :| 0 <= k < |s| && s[k] == 0;
    assert s[1..][k - 1] == 0;
  }

  /** A common first byte moves the first difference by one. */
  lemma DifferCons(x: Byte, a: seq<Byte>, b: seq<Byte>, i: int)
    requires DifferAt(a, b, i)
    ensures DifferAt([x] + a, [x] + b, i + 1) && ([x] + a)[i + 1] == a[i] && ([x] + b)[i + 1] == b[i]
    ensures [x] + a != [x] + b
  {
    assert ([x] + a)[..i + 1] == [x] + a[..i];
    assert ([x] + b)[..i + 1] == [x] + b[..i];
    assert ([x] + a)[i + 1] != ([x] + b)[i + 1];
  }

  /** strncmp may read the first count bytes of s, or up to its NUL. */
  predicate Readable(s: seq<Byte>, count: int)
  {
    count <= |s| || 0 in s
  }

  /** strncmp(cs, ct, count): strcmp on at most the first count bytes;
      a count not above 0 compares nothing. */
  function Strncmp(cs: seq<Byte>, ct: seq<Byte>, count: int): (r: int)
    requires Readable(cs, count) && Readable(ct, count)
    decreases count
  {
    if count <= 0 then 0
    else if cs[0] != ct[0] then (if SChar(ct[0]) < SChar(cs[0]) then 1 else -1)
    else if cs[0] == 0 then 0
    else
      assert Readable(cs[1..], count - 1) && Readable(ct[1..], count - 1) by {
        if 0 in cs && count > |cs| {
          var k :| 0 <= k < |cs| && cs[k] == 0;
          assert cs[1..][k - 1] == 0;
        }
        if 0 in ct && count > |ct| {
          var k :| 0 <= k < |ct| && ct[k] == 0;
          assert ct[1..][k - 1] == 0;
        }
      }
      Strncmp(cs[1..], ct[1..], count - 1)
  }

  /** On two strings strncmp with a count beyond both lengths is strcmp,
      and a count of 0 always compares equal. */
  lemma {:induction false} StrncmpIsStrcmp(cs: seq<Byte>, ct: seq<Byte>, count: int)
    requires CStr(cs) && CStr(ct) && count > Strlen(cs)
    ensures Strncmp(cs, ct, count) == Strcmp(cs, ct)
    ensures Strncmp(cs, ct, 0) == 0
    decreases Strlen(cs)
  {
    if cs[0] == ct[0] && cs[0] != 0 {
      StrncmpIsStrcmp(cs[1..], ct[1..], count - 1);
    }
  }

  /** strncmp looks at nothing past the first count bytes. */
  lemma {:induction false} StrncmpPrefix(cs: seq<Byte>, ct: seq<Byte>, cs': seq<Byte>, ct': seq<Byte>, count: nat)
    requires count <= |cs| && count <= |ct| && count <= |cs'| && count <= |ct'|
    requires cs[..count] == cs'[..count] && ct[..count] == ct'[..count]
    ensures Strncmp(cs, ct, count) == Strncmp(cs', ct', count)
    decreases count
  {
    if count > 0 {
      assert cs[0] == cs'[0] && ct[0] == ct'[0] by {
        assert cs[..count][0] == cs'[..count][0] && ct[..count][0] == ct'[..count][0];
      }
      if cs[0] == ct[0] && cs[0] != 0 {
        assert cs[1..][..count - 1] == cs'[1..][..count - 1] by {
          assert cs[1..][..count - 1] == cs[..count][1..];
          assert cs'[1..][..count - 1] == cs'[..count][1..];
        }
        assert ct[1..][..count - 1] == ct'[1..][..count - 1] by {
          assert ct[1..][..count - 1] == ct[..count][1..];
          assert ct'[1..][..count - 1] == ct'[..count][1..];
        }
        StrncmpPrefix(cs[1..], ct[1..], cs'[1..], ct'[1..], count - 1);
      }
    }
  }

  /** strchr(s, c): the offset of the first c, the terminating NUL
      included, or None (NULL) when the string holds no c. */
  function Strchr(s: seq<Byte>, c: Byte): (r: Option<nat>)
    requires CStr(s)
    decreases Strlen(s)
  {
    if s[0] == c then Some(0)
    else if s[0] == 0 then None
    else match Strchr(s[1..], c)
      case Some(i) => Some(i + 1)
      case None => None
  }

  /** strchr finds the first c among the string's bytes and its NUL, and
      gives NULL only when there is none. */
  lemma {:induction false} StrchrMeans(s: seq<Byte>, c: Byte)
    requires CStr(s)
    ensures var r := Strchr(s, c);
      (r.Some? ==> r.value <= Strlen(s) && s[r.value] == c && forall j :: 0 <= j < r.value ==> s[j] != c) &&
      (r.None? ==> forall j :: 0 <= j <= Strlen(s) ==> s[j] != c)
    decreases Strlen(s)
  {
    if s[0] != c && s[0] != 0 {
      StrchrMeans(s[1..], c);
      var r := Strchr(s[1..], c);
      if r.None? {
        forall j | 0 <= j <= Strlen(s)
          ensures s[j] != c
        {
          if j > 0 {
            assert s[j] == s[1..][j - 1];
          }
        }
      } else {
        forall j | 0 <= j < r.value + 1
          ensures s[j] != c
        {
          if j > 0 {
            assert s[j] == s[1..][j - 1];
          }
        }
      }
    }
  }

  /** strrchr(s, c): the offset of the last c, the NUL included; last is
      the answer so far on the bytes already passed. */
  function Strrchr(s: seq<Byte>, c: Byte, i: nat, last: Option<nat>): (r: Option<nat>)
    requires CStr(s) && i <= Strlen(s)
    decreases Strlen(s) - i
  {
    var last' := if s[i] == c then Some(i) else last;
    if s[i] == 0 then last' else Strrchr(s, c, i + 1, last')
  }

  /** strrchr finds the last c among the string's bytes and its NUL, and
      gives NULL only when there is none. */
  lemma {:induction false} StrrchrMeans(s: seq<Byte>, c: Byte, i: nat, last: Option<nat>)
    requires CStr(s) && i <= Strlen(s)
    requires last.Some? ==> last.value < i && s[last.value] == c
    requires last.Some? ==> forall j :: last.value < j < i ==> s[j] != c
    requires last.None? ==> forall j :: 0 <= j < i ==> s[j] != c
    ensures var r := Strrchr(s, c, i, last);
      (r.Some? ==> r.value <= Strlen(s) && s[r.value] == c && forall j :: r.value < j <= Strlen(s) ==> s[j] != c) &&
      (r.None? ==> forall j :: 0 <= j <= Strlen(s) ==> s[j] != c)
    decreases Strlen(s) - i
  {
    var last' := if s[i] == c then Some(i) else last;
    if s[i] != 0 {
      StrrchrMeans(s, c, i + 1, last');
    }
  }

  /** strspn(cs, ct): the length of the longest prefix of cs made of
      bytes of the string ct. */
  function Strspn(cs: seq<Byte>, ct: seq<Byte>): (r: nat)
    requires CStr(cs) && CStr(ct)
    decreases Strlen(cs)
  {
    if cs[0] == 0 || cs[0] !in ct[..Strlen(ct)] then 0 else 1 + Strspn(cs[1..], ct)
  }

  /** strcspn(cs, ct): the length of the longest prefix of cs avoiding
      the bytes of the string ct. */
  function Strcspn(cs: seq<Byte>, ct: seq<Byte>): (r: nat)
    requires CStr(cs) && CStr(ct)
    decreases Strlen(cs)
  {
    if cs[0] == 0 || cs[0] in ct[..Strlen(ct)] then 0 else 1 + Strcspn(cs[1..], ct)
  }

  /** strspn's prefix lies within cs's string, holds only bytes of ct and
      ends at the NUL or at a byte not in ct. */
  lemma {:induction false} StrspnMeans(cs: seq<Byte>, ct: seq<Byte>)
    requires CStr(cs) && CStr(ct)
    ensures var r := Strspn(cs, ct);
      r <= Strlen(cs) && (forall j :: 0 <= j < r ==> cs[j] in ct[..Strlen(ct)]) &&
      (cs[r] == 0 || cs[r] !in ct[..Strlen(ct)])
    decreases Strlen(cs)
  {
    if cs[0] != 0 && cs[0] in ct[..Strlen(ct)] {
      StrspnMeans(cs[1..], ct);
      var r := Strspn(cs[1..], ct);
      forall j | 0 <= j < r + 1
        ensures cs[j] in ct[..Strlen(ct)]
      {
        if j > 0 {
          assert cs[j] == cs[1..][j - 1];
        }
      }
    }
  }

  /** strcspn's prefix lies within cs's string, avoids the bytes of ct and
      ends at the NUL or at a byte of ct. */
  lemma {:induction false} StrcspnMeans(cs: seq<Byte>, ct: seq<Byte>)
    requires CStr(cs) && CStr(ct)
    ensures var r := Strcspn(cs, ct);
      r <= Strlen(cs) && (forall j :: 0 <= j < r ==> cs[j] !in ct[..Strlen(ct)]) &&
      (cs[r] == 0 || cs[r] in ct[..Strlen(ct)])
    decreases Strlen(cs)
  {
    if cs[0] != 0 && cs[0] !in ct[..Strlen(ct)] {
      StrcspnMeans(cs[1..], ct);
      var r := Strcspn(cs[1..], ct);
      forall j | 0 <= j < r + 1
        ensures cs[j] !in ct[..Strlen(ct)]
      {
        if j > 0 {
          assert cs[j] == cs[1..][j - 1];
        }
      }
    }
  }

  /** memcmp(cs, ct, count): the sign of the first differing byte among
      the first count, or 0. (With count 0 the assembly reads flags no
      instruction has set; the model answers 0.) */
  function Memcmp(cs: seq<Byte>, ct: seq<Byte>, count: nat): (r: int)
    requires count <= |cs| && count <= |ct|
  {
    if count == 0 then 0
    else if cs[0] != ct[0] then (if SChar(ct[0]) < SChar(cs[0]) then 1 else -1)
    else Memcmp(cs[1..], ct[1..], count - 1)
  }

  /** memcmp returns 0 exactly when the blocks agree, otherwise 1 or -1 as
      the first differing byte of cs is greater or smaller. */
  lemma {:induction false} MemcmpMeans(cs: seq<Byte>, ct: seq<Byte>, count: nat)
    requires count <= |cs| && count <= |ct|
    ensures var r := Memcmp(cs, ct, count);
      (r == 0 <==> cs[..count] == ct[..count]) &&
      (r != 0 ==> exists i :: DifferAt(cs[..count], ct[..count], i) &&
                              (r == 1 <==> SChar(cs[i]) > SChar(ct[i])) && (r == 1 || r == -1))
  {
    if count > 0 {
      var a, b := cs[..count], ct[..count];
      if cs[0] != ct[0] {
        assert DifferAt(a, b, 0);
        assert a != b by { assert a[0] != b[0]; }
      } else {
        MemcmpMeans(cs[1..], ct[1..], count - 1);
        var a', b' := cs[1..][..count - 1], ct[1..][..count - 1];
        assert a == [cs[0]] + a';
        assert b == [ct[0]] + b';
        var r := Memcmp(cs, ct, count);
        if r != 0 {
          var i :| DifferAt(a', b', i) && (r == 1 <==> SChar(cs[1..][i]) > SChar(ct[1..][i])) && (r == 1 || r == -1);
          DifferCons(cs[0], a', b', i);
        }
      }
    }
  }

  /** memchr(cs, c, count): the offset of the first c among the first
      count bytes; NULL when there is none, and at once for count 0. */
  function Memchr(cs: seq<Byte>, c: Byte, count: nat): (r: Option<nat>)
    requires count <= |cs|
    ensures r.Some? ==> r.value < count && cs[r.value] == c && forall j :: 0 <= j < r.value ==> cs[j] != c
    ensures r.None? ==> forall j :: 0 <= j < count ==> cs[j] != c
  {
    if count == 0 then None
    else if cs[0] == c then Some(0)
    else match Memchr(cs[1..], c, count - 1)
      case Some(i) => Some(i + 1)
      case None => None
  }

  /** m holds old's bytes except that [dest, dest + n) now holds what
      [src, src + n) held. */
  ghost predicate Copied(m: seq<Byte>, old_: seq<Byte>, dest: int, src: int, n: int)
  {
    |m| == |old_| && 0 <= dest && dest + n <= |m| && 0 <= src && src + n <= |m| &&
    (forall j :: dest <= j < dest + n ==> m[j] == old_[src + j - dest]) &&
    (forall j :: 0 <= j < |m| && !(dest <= j < dest + n) ==> m[j] == old_[j])
  }

  /** After a copy the destination block reads as the source block did. */
  lemma CopiedBlock(m: seq<Byte>, old_: seq<Byte>, dest: int, src: int, n: int)
    requires n >= 0 && Copied(m, old_, dest, src, n)
    ensures m[dest..dest + n] == old_[src..src + n]
  {
    var a, b := m[dest..dest + n], old_[src..src + n];
    forall j | 0 <= j < n ensures a[j] == b[j] {
      assert a[j] == m[dest + j];
    }
  }

  /** The regions [a, a + n) and [b, b + n) do not overlap. */
  predicate Apart(a: int, b: int, n: int)
  {
    a + n <= b || b + n <= a
  }

  /** strcpy(dest, src): src's bytes and its NUL copied to dest; the two
      must not overlap (ISO C99 section 7.21.2.3). */
  method Strcpy(m: array<Byte>, dest: nat, src: nat)
    requires src < m.Length && CStr(m[src..])
    requires dest + Strlen(m[src..]) + 1 <= m.Length && Apart(dest, src, Strlen(m[src..]) + 1)
    modifies m
    ensures Copied(m[..], old(m[..]), dest, src, Strlen(old(m[src..])) + 1)
  {
    var i := StrcpyCopy(m, dest, src);
    m[dest + i] := 0;
  }

  /** strcpy's loop up to the source's NUL. */
  method StrcpyCopy(m: array<Byte>, dest: nat, src: nat) returns (i: nat)
    requires src < m.Length && CStr(m[src..])
    requires dest + Strlen(m[src..]) + 1 <= m.Length && Apart(dest, src, Strlen(m[src..]) + 1)
    modifies m
    ensures i == Strlen(old(m[src..]))
    ensures forall j :: dest <= j < dest + i ==> m[j] == old(m[src + j - dest])
    ensures forall j :: 0 <= j < m.Length && !(dest <= j < dest + i) ==> m[j] == old(m[j])
  {
    ghost var s := m[src..];
    ghost var n := Strlen(s);
    i := 0;
    while m[src + i] != 0
      invariant 0 <= i <= n
      invariant forall j :: dest <= j < dest + i ==> m[j] == s[j - dest]
      invariant forall j :: 0 <= j < m.Length && !(dest <= j < dest + i) ==> m[j] == old(m[j])
      decreases n - i
    {
      assert m[src + i] == s[i];
      m[dest + i] := m[src + i];
      i := i + 1;
    }
    assert m[src + i] == s[i];
  }

  /** The scan for dest's NUL with which strcat starts. */
  method FindNul(m: array<Byte>, p: nat) returns (d: nat)
    requires p < m.Length && CStr(m[p..])
    ensures d == p + Strlen(m[p..])
  {
    d := p;
    while m[d] != 0
      invariant p <= d <= p + Strlen(m[p..])
      decreases p + Strlen(m[p..]) - d
    {
      assert m[d] == m[p..][d - p];
      d := d + 1;
    }
    assert m[p..][d - p] == 0;
  }

  /** strcat(dest, src): src and its NUL copied over dest's NUL; the
      regions must not overlap. */
  method Strcat(m: array<Byte>, dest: nat, src: nat)
    requires dest < m.Length && CStr(m[dest..]) && src < m.Length && CStr(m[src..])
    requires var d := dest + Strlen(m[dest..]);
      d + Strlen(m[src..]) + 1 <= m.Length && Apart(d, src, Strlen(m[src..]) + 1)
    modifies m
    ensures Copied(m[..], old(m[..]), dest + Strlen(old(m[dest..])), src, Strlen(old(m[src..])) + 1)
  {
    var d := FindNul(m, dest);
    Strcpy(m, d, src);
  }

  /** Byte i of strncpy's output: src's byte until its NUL, then 0. */
  function Padded(s: seq<Byte>, i: nat): (r: Byte)
  {
    if i >= |s| || 0 in s[..i] then 0 else s[i]
  }

  /** strncpy(dest, src, count): the first count bytes of src, NUL-padded
      after its terminator; count not above 0 writes nothing. The source
      is read up to its NUL or for count bytes, whichever comes first. */
  method Strncpy(m: array<Byte>, dest: nat, src: nat, count: int)
    requires src <= m.Length && (count <= m.Length - src || CStr(m[src..]))
    requires dest + (if count > 0 then count else 0) <= m.Length
    requires Apart(dest, src, if count > 0 then count else 0)
    modifies m
    ensures forall j :: dest <= j < dest + count ==> m[j] == Padded(old(m[src..]), j - dest)
    ensures forall j :: 0 <= j < m.Length && !(dest <= j < dest + count) ==> m[j] == old(m[j])
  {
    ghost var s := m[src..];
    var i := StrncpyCopy(m, dest, src, count);
    if i < count {
      m[dest + i] := 0;
      ghost var k := i;
      i := i + 1;
      while i < count
        invariant k < i <= count && k < |s| && s[k] == 0
        invariant forall j :: dest <= j < dest + i ==> m[j] == Padded(s, j - dest)
        invariant forall j :: 0 <= j < m.Length && !(dest <= j < dest + i) ==> m[j] == old(m[j])
      {
        PaddedZero(s, k, i);
        m[dest + i] := 0;
        i := i + 1;
      }
    }
  }

  /** strncpy's first loop: bytes copied up to src's NUL or count. */
  method StrncpyCopy(m: array<Byte>, dest: nat, src: nat, count: int) returns (i: nat)
    requires src <= m.Length && (count <= m.Length - src || CStr(m[src..]))
    requires dest + (if count > 0 then count else 0) <= m.Length
    requires Apart(dest, src, if count > 0 then count else 0)
    modifies m
    ensures (count <= 0 ==> i == 0) && (count > 0 ==> i <= count)
    ensures i < count ==> src + i < m.Length && old(m[src + i]) == 0 && dest + i < m.Length
    ensures forall j :: dest <= j < dest + i ==> m[j] == Padded(old(m[src..]), j - dest)
    ensures forall j :: 0 <= j < m.Length && !(dest <= j < dest + i) ==> m[j] == old(m[j])
  {
    ghost var s := m[src..];
    i := 0;
    while i < count && (NoNulYet(s, i, count); m[src + i] != 0)
      invariant 0 <= i && (count > 0 ==> i <= count) && (count <= 0 ==> i == 0)
      invariant i <= |s| && forall j :: 0 <= j < i ==> s[j] != 0
      invariant forall j :: 0 <= j < m.Length && !(dest <= j < dest + i) ==> m[j] == old(m[j])
      invariant forall j :: dest <= j < dest + i ==> m[j] == Padded(s, j - dest)
      decreases count - i
    {
      assert m[src + i] == s[i];
      PaddedCopy(s, i);
      m[dest + i] := m[src + i];
      i := i + 1;
    }
    if i < count {
      NoNulYet(s, i, count);
      assert m[src + i] == s[i];
    }
  }

  /** Before a NUL has been copied the next source byte is readable. */
  lemma NoNulYet(s: seq<Byte>, i: nat, count: int)
    requires i <= |s| && i < count && (count <= |s| || 0 in s)
    requires forall j :: 0 <= j < i ==> s[j] != 0
    ensures i < |s|
  {
    if 0 in s && count > |s| {
      var k :| 0 <= k < |s| && s[k] == 0;
      assert i <= k;
    }
  }

  /** Without a NUL before i, strncpy's byte i is src's. */
  lemma PaddedCopy(s: seq<Byte>, i: nat)
    requires i < |s| && forall j :: 0 <= j < i ==> s[j] != 0
    ensures Padded(s, i) == s[i]
  {
    assert 0 !in s[..i] by {
      forall j | 0 <= j < i ensures s[..i][j] != 0 {
        assert s[..i][j] == s[j];
      }
    }
  }

  /** From src's NUL at k on strncpy's bytes are 0. */
  lemma PaddedZero(s: seq<Byte>, k: nat, i: nat)
    requires k < |s| && s[k] == 0 && k <= i
    ensures Padded(s, i) == 0
  {
    if i < |s| && k < i {
      assert s[..i][k] == 0;
    }
  }

  /** memmove(dest, src, n): correct for overlapping blocks, copying
      upwards when dest is below src and downwards otherwise. */
  method Memmove(m: array<Byte>, dest: nat, src: nat, n: nat)
    requires dest + n <= m.Length && src + n <= m.Length
    modifies m
    ensures Copied(m[..], old(m[..]), dest, src, n)
  {
    if dest < src {
      var i := 0;
      while i < n
        invariant 0 <= i <= n
        invariant forall j :: dest <= j < dest + i ==> m[j] == old(m[src + j - dest])
        invariant forall j :: 0 <= j < m.Length && !(dest <= j < dest + i) ==> m[j] == old(m[j])
      {
        m[dest + i] := m[src + i];
        i := i + 1;
      }
    } else {
      var i := n;
      while i > 0
        invariant 0 <= i <= n
        invariant forall j :: dest + i <= j < dest + n ==> m[j] == old(m[src + j - dest])
        invariant forall j :: 0 <= j < m.Length && !(dest + i <= j < dest + n) ==> m[j] == old(m[j])
      {
        m[dest + i - 1] := m[src + i - 1];
        i := i - 1;
      }
    }
  }

  /** memset(s, c, count): count bytes from s set to c. */
  method Memset(m: array<Byte>, s: nat, c: Byte, count: nat)
    requires s + count <= m.Length
    modifies m
    ensures forall j :: s <= j < s + count ==> m[j] == c
    ensures forall j :: 0 <= j < m.Length && !(s <= j < s + count) ==> m[j] == old(m[j])
  {
    var i := 0;
    while i < count
      invariant 0 <= i <= count
      invariant forall j :: s <= j < s + i ==> m[j] == c
      invariant forall j :: 0 <= j < m.Length && !(s <= j < s + i) ==> m[j] == old(m[j])
    {
      m[s + i] := c;
      i := i + 1;
    }
  }

  /** After strcpy the destination holds the source string: the same
      length and the same bytes up to its NUL. */
  lemma StrcpyMeans(m: seq<Byte>, old_: seq<Byte>, dest: nat, src: nat)
    requires src < |old_| && CStr(old_[src..]) && Copied(m, old_, dest, src, Strlen(old_[src..]) + 1)
    ensures dest < |m| && CStr(m[dest..]) && Z(m[dest..]) == Z(old_[src..])
  {
    var n := Strlen(old_[src..]);
    CopiedBlock(m, old_, dest, src, n + 1);
    assert m[dest..][..n + 1] == m[dest..dest + n + 1];
    assert old_[src..][..n + 1] == old_[src..src + n + 1];
    assert m[dest..][n] == 0;
    StrlenOfPrefix(m[dest..], old_[src..], n);
  }

  /** Two byte runs that agree up to a NUL at n hold strings of length n. */
  lemma StrlenOfPrefix(a: seq<Byte>, b: seq<Byte>, n: nat)
    requires n < |a| && n < |b| && a[..n + 1] == b[..n + 1] && CStr(b) && Strlen(b) == n
    ensures CStr(a) && Strlen(a) == n && Z(a) == Z(b)
  {
    assert a[n] == a[..n + 1][n] == b[n];
    assert forall j :: 0 <= j < n ==> a[j] == a[..n + 1][j];
    StrlenIs(a, n);
  }

  /** The first NUL of s is at n. */
  lemma {:induction false} StrlenIs(s: seq<Byte>, n: nat)
    requires n < |s| && s[n] == 0 && forall j :: 0 <= j < n ==> s[j] != 0
    ensures CStr(s) && Strlen(s) == n
  {
    if n > 0 {
      assert forall j :: 0 <= j < n - 1 ==> s[1..][j] == s[j + 1];
      StrlenIs(s[1..], n - 1);
    }
  }
}
