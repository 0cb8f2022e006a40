/** tools/aesgcm_file.cpp: the passphrase-encrypted container, written by a streaming loop. */
module GcmFile {
  import opened Prelude

  const SALT_LEN := 16
  const NONCE_LEN := 12
  const TAG_LEN := 16
  const HEADER_LEN := 33
  const BUF_SIZE := 4096
  const BLOCK := 16
  const INT_LIMIT: int := 0x8000_0000   // OpenSSL takes text lengths as 32-bit signed integers
  const MAGIC: Bytes := [0x53, 0x56, 0x4C, 0x54]   // "SVLT"
  const VERSION: bv8 := 1

  type Block = b: Bytes | |b| == 16 witness [0, 0, 0, 0, 0, 0, 0, 0, 0, 0, 0, 0, 0, 0, 0, 0]

  /**
   * The parts of OpenSSL in use: PBKDF2, the block cipher applied to a counter block (key, nonce, counter), and
   * the authentication tag of (key, nonce, additional data, ciphertext).
   */
  datatype Library = Library(
    derive: (string, Bytes) -> Bytes,
    cipher: (Bytes, Bytes, nat) -> Block,
    tag: (Bytes, Bytes, Bytes, Bytes) -> Block)

  // ---- GCTR, section 6.5 of NIST SP 800-38D ----

  function Xor(x: Bytes, mask: Bytes): (y: Bytes)
    requires |x| <= |mask|
    ensures |y| == |x|
  {
    seq(|x|, i requires 0 <= i < |x| => x[i] ^ mask[i])
  }

  /** The 32-bit counter of a counter block, incremented with wrap-around. */
  function Inc32(counter: nat): nat { (counter + 1) % 0x1_0000_0000 }

  /** Block by block under an incremented 32-bit counter; the last block may be short. */
  function Gctr(lib: Library, key: Bytes, nonce: Bytes, counter: nat, x: Bytes): (y: Bytes)
    ensures |y| == |x|
    decreases |x|
  {
    if |x| <= BLOCK then Xor(x, lib.cipher(key, nonce, counter))
    else Xor(x[..BLOCK], lib.cipher(key, nonce, counter)) + Gctr(lib, key, nonce, Inc32(counter), x[BLOCK..])
  }

  /** Data is processed from the counter after the initial block, whose counter is one. */
  const FIRST: nat := 2

  // ---- The cipher context ----

  /** The counter after `n` whole blocks. */
  function Counter(start: nat, n: nat): nat
  {
    if n == 0 then start else Inc32(Counter(start, n - 1))
  }

  /** The key stream byte at position `pos` of the message. */
  function Stream(lib: Library, key: Bytes, nonce: Bytes, start: nat, pos: nat): bv8
  {
    lib.cipher(key, nonce, Counter(start, pos / BLOCK))[pos % BLOCK]
  }

  function Masked(lib: Library, key: Bytes, nonce: Bytes, start: nat, pos: nat, x: Bytes): (y: Bytes)
    ensures |y| == |x|
  {
    seq(|x|, i requires 0 <= i < |x| => x[i] ^ Stream(lib, key, nonce, start, pos + i))
  }

  /** An EVP context for GCM: how much text went through it, and what the tag will cover. */
  class Context {
    const lib: Library
    const key: Bytes
    const nonce: Bytes
    var position: nat
    var aad: Bytes
    var ciphertext: Bytes

    constructor (lib: Library, key: Bytes, nonce: Bytes)
      ensures this.lib == lib && this.key == key && this.nonce == nonce
      ensures position == 0 && aad == [] && ciphertext == []
    {
      this.lib, this.key, this.nonce := lib, key, nonce;
      position, aad, ciphertext := 0, [], [];
    }

    method UpdateAad(data: Bytes)
      modifies this`aad
      ensures aad == old(aad) + data
    {
      aad := aad + data;
    }

    method EncryptUpdate(data: Bytes) returns (out: Bytes)
      modifies this`position, this`ciphertext
      ensures out == Masked(lib, key, nonce, FIRST, old(position), data)
      ensures position == old(position) + |data| && ciphertext == old(ciphertext) + out
    {
      out := Masked(lib, key, nonce, FIRST, position, data);
      position, ciphertext := position + |data|, ciphertext + out;
    }

    method DecryptUpdate(data: Bytes) returns (out: Bytes)
      modifies this`position, this`ciphertext
      ensures out == Masked(lib, key, nonce, FIRST, old(position), data)
      ensures position == old(position) + |data| && ciphertext == old(ciphertext) + data
    {
      out := Masked(lib, key, nonce, FIRST, position, data);
      position, ciphertext := position + |data|, ciphertext + data;
    }

    method GetTag() returns (tag: Block)
      ensures tag == lib.tag(key, nonce, aad, ciphertext)
    {
      tag := lib.tag(key, nonce, aad, ciphertext);
    }
  }

  // ---- The container ----

  function Header(salt: Bytes, nonce: Bytes): Bytes { MAGIC + [VERSION] + salt + nonce }

  /** Header, one-shot GCTR ciphertext, tag over header and ciphertext. */
  function Container(lib: Library, pass: string, salt: Bytes, nonce: Bytes, p: Bytes): Bytes
  {
    var key := lib.derive(pass, salt);
    var c := Gctr(lib, key, nonce, FIRST, p);
    Header(salt, nonce) + c + lib.tag(key, nonce, Header(salt, nonce), c)
  }

  /**
   * Which of the calls that are checked fail: opening the two files; drawing random bytes, deriving the key and setting
   * up the context; the update for read number i; finishing; fetching the tag. Reading and writing are not checked: a
   * read error after `delivers` bytes looks like the end of the file, and only the first `room` bytes written arrive.
   */
  datatype EncryptEnv = EncryptEnv(
    opens: bool, setsUp: bool, updates: nat -> bool, finishes: bool, tags: bool, delivers: nat, room: nat)

  /** The first `n` bytes, or all if there are no more. */
  function Taken(xs: Bytes, n: nat): (ys: Bytes)
    ensures ys <= xs && |ys| == Min(n, |xs|)
  {
    if n < |xs| then xs[..n] else xs
  }

  /** Once a write has failed, nothing written later arrives. */
  lemma TakenTwice(a: Bytes, b: Bytes, n: nat)
    ensures Taken(Taken(a, n) + b, n) == Taken(a + b, n)
  {
  }

  lemma TakenPrefix(a: Bytes, b: Bytes, n: nat)
    requires a <= b
    ensures Taken(a, n) <= Taken(b, n)
  {
  }

  /** How many reads deliver something. */
  function Reads(size: nat): nat { (size + BUF_SIZE - 1) / BUF_SIZE }

  /** There is a read number i that delivers something exactly when the file is longer than i buffers of 4096 bytes. */
  lemma ReadsIff(size: nat, i: nat)
    ensures i < Reads(size) <==> 4096 * i < size
  {
  }

  ghost predicate AllSucceed(env: EncryptEnv, size: nat)
  {
    env.opens && env.setsUp && env.finishes && env.tags && forall i :: 0 <= i < Reads(size) ==> env.updates(i)
  }

  /**
   * The read loop: 4096 bytes at a time until a read comes up short. `salt` and `nonce` are the random bytes drawn. A
   * failing call ends it; what was written then is a beginning of the container without its tag.
   */
  method EncryptFile(lib: Library, pass: string, salt: Bytes, nonce: Bytes, contents: Bytes, env: EncryptEnv)
    returns (out: Bytes, ok: bool)
    requires |salt| == SALT_LEN && |nonce| == NONCE_LEN
    ensures ok <==> AllSucceed(env, |Taken(contents, env.delivers)|)
    ensures var whole := Container(lib, pass, salt, nonce, Taken(contents, env.delivers));
      && (ok ==> out == Taken(whole, env.room))
      && (!ok ==> out <= Taken(whole, env.room) && |out| <= |whole| - TAG_LEN)
  {
    hide Masked, Gctr, Taken;
    if !env.opens || !env.setsUp { return [], false; }
    var input := Taken(contents, env.delivers);
    var key := lib.derive(pass, salt);
    var ctx := new Context(lib, key, nonce);
    var header := Header(salt, nonce);
    ctx.UpdateAad(header);
    assert ctx.aad == header;
    assert header + [] == header;
    out := Taken(header, env.room);
    StreamIsGctr(lib, key, nonce, FIRST, input);
    ghost var whole := Container(lib, pass, salt, nonce, input);
    var at, calls := 0, 0;
    var good := true;
    while good
      invariant 0 <= at <= |input| && ctx.position == at && ctx.aad == header
      invariant ctx.ciphertext == Masked(lib, key, nonce, FIRST, 0, input[..at])
      invariant out == Taken(header + ctx.ciphertext, env.room)
      invariant good ==> at == calls * BUF_SIZE
      invariant !good ==> at == |input| && calls == Reads(|input|)
      invariant forall i :: 0 <= i < calls ==> env.updates(i)
      decreases |input| - at, good
    {
      var r := Min(BUF_SIZE, |input| - at);
      var buf := input[at..at + r];
      ReadStep(|input|, at, calls);
      good := r == BUF_SIZE;
      if r > 0 {
        if !env.updates(calls) {
          MaskedPrefix(lib, key, nonce, input, at);
          TakenPrefix(header + ctx.ciphertext, whole, env.room);
          return out, false;
        }
        MaskedAppend(lib, key, nonce, input[..at], buf);
        assert input[..at] + buf == input[..at + r];
        ghost var before := header + ctx.ciphertext;
        var piece := ctx.EncryptUpdate(buf);
        assert header + ctx.ciphertext == before + piece;
        TakenTwice(before, piece, env.room);
        out := Taken(out + piece, env.room);
        at, calls := at + r, calls + 1;
      }
    }
    assert input[..at] == input;
    TakenPrefix(header + ctx.ciphertext, whole, env.room);
    if !env.finishes { return out, false; }
    var tag := ctx.GetTag();
    if !env.tags { return out, false; }
    TakenTwice(header + ctx.ciphertext, tag, env.room);
    return Taken(out + tag, env.room), true;
  }

  /**
   * Success is reported regardless of the unchecked calls; what then lies on disk is the container of the whole file
   * exactly when every read delivered and every write arrived.
   */
  lemma EncryptionCompleteIff(lib: Library, pass: string, salt: Bytes, nonce: Bytes, contents: Bytes, env: EncryptEnv)
    requires |salt| == SALT_LEN && |nonce| == NONCE_LEN
    ensures Taken(Container(lib, pass, salt, nonce, Taken(contents, env.delivers)), env.room)
         == Container(lib, pass, salt, nonce, contents)
       <==> |contents| <= env.delivers && |contents| + 49 <= env.room
  {
    hide Gctr;
    var input := Taken(contents, env.delivers);
    assert |Container(lib, pass, salt, nonce, input)| == |input| + 49;
    assert |Container(lib, pass, salt, nonce, contents)| == |contents| + 49;
    if |contents| <= env.delivers { assert input == contents; }
  }

  /** A full read is followed by another one; a short one is the last. */
  lemma ReadStep(size: nat, at: nat, calls: nat)
    requires at <= size && at == calls * BUF_SIZE
    ensures size - at > 0 ==> calls < Reads(size)
    ensures size - at < BUF_SIZE ==> Reads(size) == calls + if size - at > 0 then 1 else 0
  {
  }

  lemma MaskedPrefix(lib: Library, key: Bytes, nonce: Bytes, x: Bytes, n: nat)
    requires n <= |x|
    ensures Masked(lib, key, nonce, FIRST, 0, x[..n]) <= Masked(lib, key, nonce, FIRST, 0, x)
  {
    assert x == x[..n] + x[n..];
    MaskedAppend(lib, key, nonce, x[..n], x[n..]);
  }

  datatype DecryptError = NotOpened | ShortHeader | BadMagic | BadVersion | NoTag | LibraryFailed | BadTag

  /** A length passed where OpenSSL takes an int: its low 32 bits, read as a signed number. */
  function Int32(n: nat): (r: int)
    ensures -0x8000_0000 <= r < 0x8000_0000 && (n - r) % 0x1_0000_0000 == 0 && (n < INT_LIMIT ==> r == n)
  {
    var low := n % (2 * INT_LIMIT);
    if low < INT_LIMIT then low else low - 2 * INT_LIMIT
  }

  /**
   * The calls of decrypt_file that can fail: opening the two files, deriving the key, setting up the context, the one
   * update, setting the tag. Only the first `room` bytes written arrive, which is not checked.
   */
  datatype DecryptEnv = DecryptEnv(opens: bool, derives: bool, setsUp: bool, updates: bool, setsTag: bool, room: nat)

  /**
   * What decrypt_file makes of the bytes it can read of a file: the text that arrives on disk and why it reports
   * failure, if it does. The length of the ciphertext reaches the library as an int, and the library refuses a negative
   * one.
   */
  method DecryptFile(lib: Library, pass: string, file: Bytes, env: DecryptEnv)
    returns (out: Bytes, err: Option<DecryptError>)
    ensures (out, err) == Decrypted(lib, pass, file, env)
  {
    hide Masked, Gctr, Int32, Taken, Opened, OpenedBody;
    OpenedEarly(lib, pass, file);
    if !env.opens { return [], Some(NotOpened); }
    if |file| < HEADER_LEN { return [], Some(ShortHeader); }
    var header := file[..HEADER_LEN];
    assert header[..4] == file[..4];
    if header[..4] != MAGIC { return [], Some(BadMagic); }
    if header[4] != VERSION { return [], Some(BadVersion); }
    var salt, nonce := header[5..5 + SALT_LEN], header[5 + SALT_LEN..];
    if |file| >= 49 { OpenedLate(lib, pass, file); }
    if !env.derives { return [], Some(LibraryFailed); }
    var key := lib.derive(pass, salt);
    var body := file[HEADER_LEN..];
    if |body| < TAG_LEN { return [], Some(NoTag); }
    var n := |body| - TAG_LEN;
    var ciphertext, tag := body[..n], body[n..];
    if !env.setsUp { return [], Some(LibraryFailed); }
    out, err := DecryptBody(lib, key, nonce, header, ciphertext, tag, env);
  }

  /** The part of decrypt_file that works on the cipher context. */
  method DecryptBody(lib: Library, key: Bytes, nonce: Bytes, header: Bytes, ciphertext: Bytes, tag: Bytes,
                     env: DecryptEnv)
    returns (out: Bytes, err: Option<DecryptError>)
    ensures var (text, e) := OpenedBody(lib, key, nonce, header, ciphertext, tag);
      (out, err) ==
        if e == Some(LibraryFailed) || (!env.updates && ciphertext != []) then ([], Some(LibraryFailed))
        else (Taken(text, env.room), if env.setsTag then e else Some(LibraryFailed))
  {
    hide Masked, Gctr, Int32, Taken;
    var ctx := new Context(lib, key, nonce);
    ctx.UpdateAad(header);
    assert ctx.aad == header;
    var text := [];
    var length := Int32(|ciphertext|);
    Int32Below(|ciphertext|);
    if |ciphertext| > 0 {
      if !env.updates || length < 0 { return [], Some(LibraryFailed); }
      text := ctx.DecryptUpdate(ciphertext[..length]);
    }
    out := Taken(text, env.room);
    assert ctx.ciphertext == ciphertext[..length];
    assert text == Masked(lib, key, nonce, FIRST, 0, ciphertext[..length]);
    StreamIsGctr(lib, key, nonce, FIRST, ciphertext[..length]);
    if !env.setsTag { return out, Some(LibraryFailed); }
    var expected := ctx.GetTag();
    if expected != tag { return out, Some(BadTag); }
    return out, None;
  }

  lemma OpenedEarly(lib: Library, pass: string, file: Bytes)
    ensures |file| < HEADER_LEN ==> Opened(lib, pass, file) == ([], Some(ShortHeader))
    ensures |file| >= HEADER_LEN && file[..4] != MAGIC ==> Opened(lib, pass, file) == ([], Some(BadMagic))
    ensures |file| >= HEADER_LEN && file[..4] == MAGIC && file[4] != VERSION ==>
      Opened(lib, pass, file) == ([], Some(BadVersion))
    ensures HEADER_LEN <= |file| < 49 && file[..4] == MAGIC && file[4] == VERSION ==>
      Opened(lib, pass, file) == ([], Some(NoTag))
  {
    hide OpenedBody;
  }

  lemma OpenedLate(lib: Library, pass: string, file: Bytes)
    requires |file| >= 49 && file[..4] == MAGIC && file[4] == VERSION
    ensures var header, body := file[..HEADER_LEN], file[HEADER_LEN..];
      var n := |body| - TAG_LEN;
      var salt, nonce := header[5..5 + SALT_LEN], header[5 + SALT_LEN..];
      var r := OpenedBody(lib, lib.derive(pass, salt), nonce, header, body[..n], body[n..]);
      Opened(lib, pass, file) == r && (r.1.Some? ==> r.1.value.LibraryFailed? || r.1.value.BadTag?)
  {
    hide Gctr, Int32;
    SameParts(file);
  }

  /** Decryption when calls may fail, told by what `Opened` says of the file when none does. */
  function Decrypted(lib: Library, pass: string, file: Bytes, env: DecryptEnv): (r: (Bytes, Option<DecryptError>))
  {
    var (text, err) := Opened(lib, pass, file);
    if !env.opens then ([], Some(NotOpened))
    else if err == Some(ShortHeader) || err == Some(BadMagic) || err == Some(BadVersion) then ([], err)
    else if !env.derives then ([], Some(LibraryFailed))
    else if err == Some(NoTag) then ([], err)
    else if !env.setsUp || err == Some(LibraryFailed) || (!env.updates && |file| > 49) then ([], Some(LibraryFailed))
    else (Taken(text, env.room), if env.setsTag then err else Some(LibraryFailed))
  }

  lemma Int32Below(n: nat)
    ensures Int32(n) <= n && (n == 0 ==> Int32(n) == 0)
  {
  }

  lemma SameParts(file: Bytes)
    requires |file| >= HEADER_LEN + TAG_LEN
    ensures var header, body := file[..HEADER_LEN], file[HEADER_LEN..];
      var n := |body| - TAG_LEN;
      && header[..4] == file[..4] && header[5..5 + SALT_LEN] == file[5..5 + SALT_LEN]
      && header[5 + SALT_LEN..] == file[5 + SALT_LEN..HEADER_LEN]
      && body[..n] == file[HEADER_LEN..|file| - TAG_LEN] && body[n..] == file[|file| - TAG_LEN..]
  {
  }

  /** Decryption of the bytes between header and tag; note that the text is written even when the tag does not match. */
  function OpenedBody(lib: Library, key: Bytes, nonce: Bytes, header: Bytes, body: Bytes,
                      tag: Bytes): (r: (Bytes, Option<DecryptError>))
  {
    var length := Int32(|body|);
    if length < 0 then ([], Some(LibraryFailed))
    else
      Int32Below(|body|);
      var c := body[..length];
      (Gctr(lib, key, nonce, FIRST, c), if lib.tag(key, nonce, header, c) == tag then None else Some(BadTag))
  }

  /** Decryption as a function of the file. */
  function Opened(lib: Library, pass: string, file: Bytes): (r: (Bytes, Option<DecryptError>))
  {
    if |file| < HEADER_LEN then ([], Some(ShortHeader))
    else if file[..4] != MAGIC then ([], Some(BadMagic))
    else if file[4] != VERSION then ([], Some(BadVersion))
    else if |file| < HEADER_LEN + TAG_LEN then ([], Some(NoTag))
    else
      var n := |file| - TAG_LEN;
      var salt, nonce := file[5..5 + SALT_LEN], file[5 + SALT_LEN..HEADER_LEN];
      OpenedBody(lib, lib.derive(pass, salt), nonce, file[..HEADER_LEN], file[HEADER_LEN..n], file[n..])
  }

  // ---- Streaming equals one shot ----

  lemma MaskedAppend(lib: Library, key: Bytes, nonce: Bytes, x: Bytes, y: Bytes)
    ensures Masked(lib, key, nonce, FIRST, 0, x + y)
         == Masked(lib, key, nonce, FIRST, 0, x) + Masked(lib, key, nonce, FIRST, |x|, y)
  {
  }

  lemma {:induction false} CounterShift(start: nat, n: nat)
    ensures Counter(start, n + 1) == Counter(Inc32(start), n)
  {
    if n > 0 { CounterShift(start, n - 1); }
  }

  lemma StreamShift(lib: Library, key: Bytes, nonce: Bytes, start: nat, pos: nat)
    requires pos >= BLOCK
    ensures Stream(lib, key, nonce, start, pos) == Stream(lib, key, nonce, Inc32(start), pos - BLOCK)
  {
    var k := pos - BLOCK;
    assert pos / BLOCK == k / BLOCK + 1 && pos % BLOCK == k % BLOCK;
    CounterShift(start, k / BLOCK);
  }

  lemma {:induction false} GctrAt(lib: Library, key: Bytes, nonce: Bytes, start: nat, x: Bytes, i: nat)
    requires i < |x|
    ensures Gctr(lib, key, nonce, start, x)[i] == x[i] ^ Stream(lib, key, nonce, start, i)
    decreases |x|
  {
    if i < BLOCK {
      assert i / BLOCK == 0 && i % BLOCK == i;
      assert Counter(start, 0) == start;
    } else {
      GctrAt(lib, key, nonce, Inc32(start), x[BLOCK..], i - BLOCK);
      StreamShift(lib, key, nonce, start, i);
    }
  }

  /** The counter in closed form. */
  lemma {:induction false} CounterAt(start: nat, n: nat)
    requires start < 0x1_0000_0000
    ensures Counter(start, n) == (start + n) % 0x1_0000_0000
  {
    if n > 0 { CounterAt(start, n - 1); }
  }

  /** Byte i of a ciphertext is masked by byte i mod 16 of the counter block 2 + i div 16, counted in 32 bits. */
  lemma CiphertextAt(lib: Library, key: Bytes, nonce: Bytes, p: Bytes, i: nat)
    requires i < |p|
    ensures Gctr(lib, key, nonce, FIRST, p)[i] == p[i] ^ lib.cipher(key, nonce, (2 + i / 16) % 0x1_0000_0000)[i % 16]
  {
    hide Gctr;
    GctrAt(lib, key, nonce, FIRST, p, i);
    CounterAt(FIRST, i / 16);
  }

  /** The container byte for byte: "SVLT", version 1, salt, nonce, ciphertext, and the tag over all but itself. */
  lemma ContainerLayout(lib: Library, pass: string, salt: Bytes, nonce: Bytes, p: Bytes)
    requires |salt| == 16 && |nonce| == 12
    ensures var file, key := Container(lib, pass, salt, nonce, p), lib.derive(pass, salt);
      && |file| == |p| + 49 && file[..5] == [0x53, 0x56, 0x4C, 0x54, 1] && file[5..21] == salt && file[21..33] == nonce
      && (forall i :: 0 <= i < |p| ==>
            file[33 + i] == p[i] ^ lib.cipher(key, nonce, (2 + i / 16) % 0x1_0000_0000)[i % 16])
      && file[|p| + 33..] == lib.tag(key, nonce, file[..33], file[33..|p| + 33])
  {
    hide Gctr;
    var file, key := Container(lib, pass, salt, nonce, p), lib.derive(pass, salt);
    var header, c := Header(salt, nonce), Gctr(lib, key, nonce, FIRST, p);
    assert file[..33] == header && file[33..|p| + 33] == c;
    assert header[..5] == MAGIC + [VERSION] && header[5..21] == salt && header[21..] == nonce;
    assert file[..5] == header[..5] && file[5..21] == header[5..21] && file[21..33] == header[21..];
    forall i | 0 <= i < |p|
      ensures file[33 + i] == p[i] ^ lib.cipher(key, nonce, (2 + i / 16) % 0x1_0000_0000)[i % 16]
    {
      CiphertextAt(lib, key, nonce, p, i);
      assert file[33..|p| + 33][i] == c[i];
    }
  }

  /** The byte stream of the context is the block-wise GCTR function. */
  lemma StreamIsGctr(lib: Library, key: Bytes, nonce: Bytes, start: nat, x: Bytes)
    ensures Masked(lib, key, nonce, start, 0, x) == Gctr(lib, key, nonce, start, x)
  {
    hide Gctr, Stream;
    forall i | 0 <= i < |x| ensures Masked(lib, key, nonce, start, 0, x)[i] == Gctr(lib, key, nonce, start, x)[i] {
      GctrAt(lib, key, nonce, start, x, i);
    }
  }

  lemma GctrInverse(lib: Library, key: Bytes, nonce: Bytes, x: Bytes)
    ensures Gctr(lib, key, nonce, FIRST, Gctr(lib, key, nonce, FIRST, x)) == x
  {
    hide Gctr, Stream;
    var y := Gctr(lib, key, nonce, FIRST, x);
    var z := Gctr(lib, key, nonce, FIRST, y);
    forall i | 0 <= i < |x| ensures z[i] == x[i] {
      GctrAt(lib, key, nonce, FIRST, x, i);
      GctrAt(lib, key, nonce, FIRST, y, i);
      XorTwice(x[i], Stream(lib, key, nonce, FIRST, i));
    }
  }

  lemma XorTwice(a: bv8, k: bv8)
    ensures (a ^ k) ^ k == a
  {
  }

  // ---- Round trip ----

  /** A file with the header of a container, `c` and then `junk` as its ciphertext, and `tag` at its end. */
  function Assembled(salt: Bytes, nonce: Bytes, c: Bytes, junk: Bytes, tag: Bytes): Bytes
  {
    Header(salt, nonce) + c + junk + tag
  }

  lemma AssembledParts(salt: Bytes, nonce: Bytes, c: Bytes, junk: Bytes, tag: Bytes)
    requires |salt| == SALT_LEN && |nonce| == NONCE_LEN && |tag| == TAG_LEN
    ensures var file := Assembled(salt, nonce, c, junk, tag);
      var n := |file| - TAG_LEN;
      && n == HEADER_LEN + |c| + |junk| && file[..HEADER_LEN] == Header(salt, nonce) && file[n..] == tag
      && file[HEADER_LEN..n] == c + junk && file[..4] == MAGIC && file[4] == VERSION
      && file[5..5 + SALT_LEN] == salt && file[5 + SALT_LEN..HEADER_LEN] == nonce
  {
    var file, header := Assembled(salt, nonce, c, junk, tag), Header(salt, nonce);
    assert file[..HEADER_LEN] == header;
    assert header[..4] == MAGIC && header[4] == VERSION;
    assert header[5..5 + SALT_LEN] == salt && header[5 + SALT_LEN..] == nonce;
    assert file[..4] == header[..4] && file[5..5 + SALT_LEN] == header[5..5 + SALT_LEN];
    assert file[5 + SALT_LEN..HEADER_LEN] == header[5 + SALT_LEN..];
  }

  lemma OpenedPart(lib: Library, key: Bytes, nonce: Bytes, header: Bytes, c: Bytes, junk: Bytes, tag: Bytes)
    requires Int32(|c| + |junk|) == |c|
    ensures OpenedBody(lib, key, nonce, header, c + junk, tag) ==
      (Gctr(lib, key, nonce, FIRST, c), if lib.tag(key, nonce, header, c) == tag then None else Some(BadTag))
  {
    hide Gctr, Int32;
    assert (c + junk)[..|c|] == c;
  }

  /** What decryption makes of such a file when the length that reaches the library is that of `c`. */
  lemma OpenedAssembled(lib: Library, pass: string, salt: Bytes, nonce: Bytes, c: Bytes, junk: Bytes, tag: Bytes)
    requires |salt| == SALT_LEN && |nonce| == NONCE_LEN && |tag| == TAG_LEN
    requires Int32(|c| + |junk|) == |c|
    ensures var key, header := lib.derive(pass, salt), Header(salt, nonce);
      Opened(lib, pass, Assembled(salt, nonce, c, junk, tag)) ==
        (Gctr(lib, key, nonce, FIRST, c), if lib.tag(key, nonce, header, c) == tag then None else Some(BadTag))
  {
    hide Gctr, Int32, Assembled, Header, OpenedBody;
    AssembledParts(salt, nonce, c, junk, tag);
    OpenedPart(lib, lib.derive(pass, salt), nonce, Header(salt, nonce), c, junk, tag);
  }

  /** A plaintext comes back from its own container exactly when its length fits the library's int. */
  lemma ContainerRoundTripIff(lib: Library, pass: string, salt: Bytes, nonce: Bytes, p: Bytes)
    requires |salt| == SALT_LEN && |nonce| == NONCE_LEN
    ensures Opened(lib, pass, Container(lib, pass, salt, nonce, p)) == (p, None) <==> |p| < INT_LIMIT
  {
    hide Gctr;
    var key := lib.derive(pass, salt);
    var c := Gctr(lib, key, nonce, FIRST, p);
    var file := Container(lib, pass, salt, nonce, p);
    if |p| < INT_LIMIT {
      OpenedAssembled(lib, pass, salt, nonce, c, [], lib.tag(key, nonce, Header(salt, nonce), c));
      assert Assembled(salt, nonce, c, [], lib.tag(key, nonce, Header(salt, nonce), c)) == file;
      GctrInverse(lib, key, nonce, p);
    } else {
      OutputFits(lib, pass, file);
    }
  }

  /** With everything that can fail: the plaintext arrives and success is reported exactly under these conditions. */
  lemma DecryptionCompleteIff(lib: Library, pass: string, salt: Bytes, nonce: Bytes, p: Bytes, env: DecryptEnv)
    requires |salt| == SALT_LEN && |nonce| == NONCE_LEN
    ensures Decrypted(lib, pass, Container(lib, pass, salt, nonce, p), env) == (p, None)
       <==> && |p| < INT_LIMIT && |p| <= env.room
            && env.opens && env.derives && env.setsUp && env.setsTag && (p != [] ==> env.updates)
  {
    hide Gctr, Opened;
    var file := Container(lib, pass, salt, nonce, p);
    assert |file| == |p| + 49;
    ContainerRoundTripIff(lib, pass, salt, nonce, p);
    OutputFits(lib, pass, file);
  }

  lemma OutputFits(lib: Library, pass: string, file: Bytes)
    ensures |Opened(lib, pass, file).0| < INT_LIMIT
  {
    hide Gctr, Int32;
  }

  /**
   * A file is accepted exactly when it is a container with some multiple of 2^32 bytes inserted before its tag; if
   * it is shorter than that, it is a container.
   */
  lemma AcceptedIff(lib: Library, pass: string, file: Bytes)
    ensures Opened(lib, pass, file).1 == None <==>
      exists salt, nonce, p, junk :: IsPadded(lib, pass, file, salt, nonce, p, junk)
    ensures |file| < 2 * INT_LIMIT ==> (Opened(lib, pass, file).1 == None <==>
      exists salt, nonce, p :: IsContainer(lib, pass, file, salt, nonce, p))
  {
    hide Gctr, Opened, IsPadded, IsContainer;
    if Opened(lib, pass, file).1 == None {
      var salt, nonce, p, junk := AcceptedIsPadded(lib, pass, file);
      if |file| < 2 * INT_LIMIT { PaddedIsContainer(lib, pass, file, salt, nonce, p, junk); }
    }
    if exists salt, nonce, p, junk :: IsPadded(lib, pass, file, salt, nonce, p, junk) {
      var salt, nonce, p, junk :| IsPadded(lib, pass, file, salt, nonce, p, junk);
      PaddedIsAccepted(lib, pass, file, salt, nonce, p, junk);
    }
    if |file| < 2 * INT_LIMIT && exists salt, nonce, p :: IsContainer(lib, pass, file, salt, nonce, p) {
      var salt, nonce, p :| IsContainer(lib, pass, file, salt, nonce, p);
      ContainerIsPadded(lib, pass, file, salt, nonce, p);
      PaddedIsAccepted(lib, pass, file, salt, nonce, p, []);
    }
  }

  predicate IsContainer(lib: Library, pass: string, file: Bytes, salt: Bytes, nonce: Bytes, p: Bytes)
  {
    |salt| == SALT_LEN && |nonce| == NONCE_LEN && |p| < INT_LIMIT && file == Container(lib, pass, salt, nonce, p)
  }

  predicate IsPadded(lib: Library, pass: string, file: Bytes, salt: Bytes, nonce: Bytes, p: Bytes, junk: Bytes)
  {
    && |salt| == SALT_LEN && |nonce| == NONCE_LEN && |p| < INT_LIMIT && |junk| % (2 * INT_LIMIT) == 0
    && var key := lib.derive(pass, salt);
       var c := Gctr(lib, key, nonce, FIRST, p);
       file == Assembled(salt, nonce, c, junk, lib.tag(key, nonce, Header(salt, nonce), c))
  }

  lemma AcceptedIsPadded(lib: Library, pass: string, file: Bytes)
    returns (salt: Bytes, nonce: Bytes, p: Bytes, junk: Bytes)
    requires Opened(lib, pass, file).1 == None
    ensures IsPadded(lib, pass, file, salt, nonce, p, junk)
  {
    hide Gctr;
    var n := |file| - TAG_LEN;
    salt, nonce := file[5..5 + SALT_LEN], file[5 + SALT_LEN..HEADER_LEN];
    var length := Int32(n - HEADER_LEN);
    var c := file[HEADER_LEN..n][..length];
    p, junk := Opened(lib, pass, file).0, file[HEADER_LEN..n][length..];
    GctrInverse(lib, lib.derive(pass, salt), nonce, c);
    assert file[..HEADER_LEN] == Header(salt, nonce);
    assert c + junk == file[HEADER_LEN..n];
    assert file == file[..HEADER_LEN] + (c + junk) + file[n..];
  }

  lemma PaddedIsAccepted(lib: Library, pass: string, file: Bytes, salt: Bytes, nonce: Bytes, p: Bytes, junk: Bytes)
    requires IsPadded(lib, pass, file, salt, nonce, p, junk)
    ensures Opened(lib, pass, file) == (p, None)
  {
    hide Gctr, Opened;
    var key := lib.derive(pass, salt);
    var c := Gctr(lib, key, nonce, FIRST, p);
    assert Int32(|c| + |junk|) == |c|;
    OpenedAssembled(lib, pass, salt, nonce, c, junk, lib.tag(key, nonce, Header(salt, nonce), c));
    GctrInverse(lib, key, nonce, p);
  }

  lemma PaddedIsContainer(lib: Library, pass: string, file: Bytes, salt: Bytes, nonce: Bytes, p: Bytes, junk: Bytes)
    requires IsPadded(lib, pass, file, salt, nonce, p, junk) && |file| < 2 * INT_LIMIT
    ensures IsContainer(lib, pass, file, salt, nonce, p)
  {
    hide Gctr;
    assert |junk| < 2 * INT_LIMIT;
    assert junk == [];
  }

  lemma ContainerIsPadded(lib: Library, pass: string, file: Bytes, salt: Bytes, nonce: Bytes, p: Bytes)
    requires IsContainer(lib, pass, file, salt, nonce, p)
    ensures IsPadded(lib, pass, file, salt, nonce, p, [])
  {
    hide Gctr;
    var key := lib.derive(pass, salt);
    var c := Gctr(lib, key, nonce, FIRST, p);
    assert Header(salt, nonce) + c + [] == Header(salt, nonce) + c;
  }

  // ---- Rejected files leave output behind ----

  /** A container whose tag was altered is rejected after its whole plaintext has been written. */
  lemma AlteredTagLeavesText(lib: Library, pass: string, salt: Bytes, nonce: Bytes, p: Bytes, tag: Block)
    requires |salt| == SALT_LEN && |nonce| == NONCE_LEN && |p| < INT_LIMIT
    requires var key := lib.derive(pass, salt);
      tag != lib.tag(key, nonce, Header(salt, nonce), Gctr(lib, key, nonce, FIRST, p))
    ensures var c := Gctr(lib, lib.derive(pass, salt), nonce, FIRST, p);
      Opened(lib, pass, Assembled(salt, nonce, c, [], tag)) == (p, Some(BadTag))
  {
    hide Gctr, Opened;
    var key := lib.derive(pass, salt);
    OpenedAssembled(lib, pass, salt, nonce, Gctr(lib, key, nonce, FIRST, p), [], tag);
    GctrInverse(lib, key, nonce, p);
  }

  /** The tag over the header and the bytes the library decrypts is not the one at the end of the file. */
  predicate TagDiffers(lib: Library, pass: string, file: Bytes)
    requires |file| >= 49 && Int32(|file| - 49) >= 0
  {
    var n, length := |file| - TAG_LEN, Int32(|file| - 49);
    Int32Below(|file| - 49);
    var salt, nonce := file[5..5 + SALT_LEN], file[5 + SALT_LEN..HEADER_LEN];
    lib.tag(lib.derive(pass, salt), nonce, file[..HEADER_LEN], file[HEADER_LEN..n][..length]) != file[n..]
  }

  /**
   * Rejection leaves text behind exactly for the files with a proper header, bytes to decrypt and a tag that differs.
   */
  lemma RejectedLeavesTextIff(lib: Library, pass: string, file: Bytes)
    ensures var (out, err) := Opened(lib, pass, file);
      err.Some? && out != [] <==>
        && |file| > 49 && file[..4] == MAGIC && file[4] == VERSION
        && Int32(|file| - 49) > 0 && TagDiffers(lib, pass, file)
  {
    hide Gctr, Int32;
  }
}
