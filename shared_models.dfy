/**
 * The connection data a client sends inside a netcode connect token: a username and a
 * lobby name, packed into the token's fixed-size opaque user-data field and unpacked
 * again by the server (shared-models/src/lib.rs).
 *
 * Layout of the 256 bytes: <length of username> <length of lobby name> <username slot>
 * <lobby slot>; each length is one `u8`, each slot 127 bytes, and every byte not
 * covered by a string is zero.
 */
module SharedModels {
  import opened Wrappers
  import opened Ints
  import opened Utf8

  /** `NETCODE_USER_DATA_BYTES`: size of the user-data field of a netcode connect token. */
  const NetcodeUserDataBytes: nat := 256
  /** `DATA_PARTS`: username and lobby name. */
  const DataParts: nat := 2
  /** `DataLen::MAX` for the length type `DataLen = u8`. */
  const DataLenMax: nat := 255
  /** `HEADER_PART_BYTES`: bytes of one length field (the value of its formula, see `LayoutConstants`). */
  const HeaderPartBytes: nat := 1
  /** `HEADER_BYTES`: bytes of both length fields. */
  const HeaderBytes: nat := 2
  /** `MAX_DATA_PART_BYTES`: size of each string slot. */
  const MaxDataPartBytes: nat := 127
  /** Offset of the lobby slot. */
  const LobbyOffset: nat := HeaderBytes + MaxDataPartBytes

  /**
   * The layout constants are the values of the source's integer formulas: one header byte per
   * string, and two 127-byte slots that fit beside the header.
   */
  lemma LayoutConstants()
    ensures HeaderPartBytes == NetcodeUserDataBytes / (DataLenMax + 1)
    ensures HeaderBytes == HeaderPartBytes * DataParts
    ensures MaxDataPartBytes == (NetcodeUserDataBytes - HeaderBytes) / DataParts
    ensures LobbyOffset == 129
    ensures HeaderBytes + DataParts * MaxDataPartBytes <= NetcodeUserDataBytes
  {
  }

  /** `ConnectionData`: both strings as their UTF-8 bytes. */
  datatype ConnectionData = ConnectionData(username: Utf8String, lobby: Utf8String)

  /** `ConnectionData::is_valid_data_part`: the string's UTF-8 byte length fits a slot. */
  predicate IsValidDataPart(data: Utf8String) {
    |data| <= MaxDataPartBytes
  }

  /** A valid data part fits its slot: in the username slot it ends before the lobby slot, and in the lobby slot it ends within the block. */
  lemma DataPartFitsSlot(data: Utf8String)
    ensures IsValidDataPart(data) <==> HeaderBytes + |data| <= LobbyOffset
    ensures IsValidDataPart(data) <==> LobbyOffset + |data| <= NetcodeUserDataBytes
  {
  }

  /** Connection data that `try_new` accepts. */
  predicate Valid(d: ConnectionData) {
    IsValidDataPart(d.username) && IsValidDataPart(d.lobby)
  }

  /** `ConnectionData::try_new`: rejects a string longer than its slot, otherwise keeps both verbatim. */
  function TryNew(username: Utf8String, lobby: Utf8String): (r: Option<ConnectionData>)
    ensures r == None <==> |username| > 127 || |lobby| > 127
    ensures r.Some? ==> r.value.username == username && r.value.lobby == lobby && Valid(r.value)
  {
    if !IsValidDataPart(username) || !IsValidDataPart(lobby) then None
    else Some(ConnectionData(username, lobby))
  }

  /** `n as DataLen`: Rust's cast of a length to `u8` keeps the low eight bits. */
  function AsDataLen(n: nat): (b: u8)
  {
    (n % 256) as u8
  }

  /** The bytes `<&mut [u8] as Write>::write` stores into a slice of `room` bytes: as many of `data` as fit. */
  function Fitting(data: seq<u8>, room: nat): (r: seq<u8>)
  {
    if |data| <= room then data else data[..room]
  }

  function Zeros(n: nat): (z: seq<u8>)
    ensures |z| == n && forall k :: 0 <= k < n ==> z[k] == 0
  {
    seq(n, _ => 0)
  }

  /**
   * The array `to_netcode_user_data` returns, for any connection data (the struct's fields
   * are public, so it need not have passed `try_new`): truncated lengths, and each string
   * cut to its slot.
   */
  function UserData(d: ConnectionData): (r: seq<u8>)
    ensures |r| == NetcodeUserDataBytes
  {
    var u := Fitting(d.username, MaxDataPartBytes);
    var l := Fitting(d.lobby, NetcodeUserDataBytes - LobbyOffset);
    [AsDataLen(|d.username|), AsDataLen(|d.lobby|)]
      + u + Zeros(MaxDataPartBytes - |u|)
      + l + Zeros(NetcodeUserDataBytes - LobbyOffset - |l|)
  }

  /** Every byte the layout does not assign to a string is zero, and both lengths fit a slot. */
  predicate ZeroPadded(userData: seq<u8>)
    requires |userData| == NetcodeUserDataBytes
  {
    && userData[0] as nat <= MaxDataPartBytes
    && userData[1] as nat <= MaxDataPartBytes
    && (forall k :: HeaderBytes + userData[0] as nat <= k < LobbyOffset ==> userData[k] == 0)
    && (forall k :: LobbyOffset + userData[1] as nat <= k < NetcodeUserDataBytes ==> userData[k] == 0)
  }

  lemma ZerosSplit(a: nat, b: nat)
    ensures Zeros(a + b) == Zeros(a) + Zeros(b)
  {
  }

  /**
   * `(&mut buffer[lo..hi]).write(data)`: copies as many leading bytes of `data` as the slice
   * holds and returns how many; nothing outside the slice changes.
   */
  method WriteSlice(buffer: array<u8>, lo: nat, hi: nat, data: seq<u8>) returns (written: nat)
    requires lo <= hi <= buffer.Length
    modifies buffer
    ensures written == |Fitting(data, hi - lo)|
    ensures buffer[..] == old(buffer[..lo]) + Fitting(data, hi - lo) + old(buffer[lo + written..])
  {
    written := if |data| <= hi - lo then |data| else hi - lo;
    var k := 0;
    while k < written
      invariant 0 <= k <= written
      invariant forall j :: 0 <= j < lo ==> buffer[j] == old(buffer[j])
      invariant forall j :: 0 <= j < k ==> buffer[lo + j] == data[j]
      invariant forall j :: lo + k <= j < buffer.Length ==> buffer[j] == old(buffer[j])
    {
      buffer[lo + k] := data[k];
      k := k + 1;
    }
    assert buffer[..] == old(buffer[..lo]) + Fitting(data, hi - lo) + old(buffer[lo + written..]);
  }

  /** Writing the username slot of the zeroed array leaves the lobby slot zero. */
  lemma FillUsernameSlot(header: seq<u8>, u: seq<u8>)
    requires |header| == HeaderBytes && |u| <= MaxDataPartBytes
    ensures var z := header + Zeros(254);
      z[..2] + u + z[2 + |u|..] == header + u + Zeros(127 - |u|) + Zeros(127)
  {
    var z := header + Zeros(254);
    ZerosSplit(127 - |u|, 127);
    assert z[..2] == header;
    assert z[2 + |u|..] == Zeros(254 - |u|);
  }

  /** Writing the lobby slot after the username slot completes the layout. */
  lemma FillLobbySlot(prefix: seq<u8>, l: seq<u8>)
    requires |prefix| == LobbyOffset && |l| <= MaxDataPartBytes
    ensures var w := prefix + Zeros(127);
      w[..129] + l + w[129 + |l|..] == prefix + l + Zeros(127 - |l|)
  {
    var w := prefix + Zeros(127);
    assert w[..129] == prefix;
    assert w[129 + |l|..] == Zeros(127 - |l|);
  }

  /** `ConnectionData::to_netcode_user_data`: fills a zeroed array slot by slot. */
  method ToNetcodeUserData(d: ConnectionData) returns (userData: seq<u8>)
    ensures |userData| == NetcodeUserDataBytes
    ensures userData == UserData(d)
  {
    var buffer := new u8[NetcodeUserDataBytes](_ => 0);
    buffer[0] := AsDataLen(|d.username|);
    buffer[HeaderPartBytes] := AsDataLen(|d.lobby|);
    ghost var header := [AsDataLen(|d.username|), AsDataLen(|d.lobby|)];
    ghost var u := Fitting(d.username, MaxDataPartBytes);
    ghost var l := Fitting(d.lobby, NetcodeUserDataBytes - LobbyOffset);
    assert buffer[..] == header + Zeros(254);
    FillUsernameSlot(header, u);
    var _ := WriteSlice(buffer, HeaderBytes, HeaderBytes + MaxDataPartBytes, d.username);
    assert buffer[..] == (header + u + Zeros(127 - |u|)) + Zeros(127);
    FillLobbySlot(header + u + Zeros(127 - |u|), l);
    var _ := WriteSlice(buffer, LobbyOffset, buffer.Length, d.lobby);
    userData := buffer[..];
  }

  /**
   * `ConnectionData::from_user_data`. `None` stands for the panics of the source: a length
   * that slices past the end of the array, or slice bytes that are not UTF-8.
   */
  function FromUserData(userData: seq<u8>): (r: Option<ConnectionData>)
    requires |userData| == NetcodeUserDataBytes
    ensures userData[0] as int > 254 || userData[1] as int > 127 ==> r == None
    ensures r.Some? ==> |r.value.username| == userData[0] as int && |r.value.lobby| == userData[1] as int
    ensures r.Some? <==>
      && userData[0] as int <= 254 && userData[1] as int <= 127
      && IsUtf8(userData[2..2 + userData[0] as int]) && IsUtf8(userData[129..129 + userData[1] as int])
    ensures r.Some? ==>
      && r.value.username == userData[2..2 + userData[0] as int]
      && r.value.lobby == userData[129..129 + userData[1] as int]
  {
    var usernameLen := userData[0] as nat;
    var lobbyLen := userData[HeaderPartBytes] as nat;
    if HeaderBytes + usernameLen > |userData| || LobbyOffset + lobbyLen > |userData| then None
    else
      var username := userData[HeaderBytes..HeaderBytes + usernameLen];
      var lobby := userData[LobbyOffset..LobbyOffset + lobbyLen];
      if IsUtf8(username) && IsUtf8(lobby) then Some(ConnectionData(username, lobby)) else None
  }

  /** The encoded bytes sit in their slots: lengths in bytes 0 and 1, the username from offset 2, the lobby name from offset 129, zeros elsewhere. */
  lemma UserDataLayout(d: ConnectionData)
    requires Valid(d)
    ensures var r := UserData(d);
      && r[0] as int == |d.username| && r[1] as int == |d.lobby|
      && r[2..2 + |d.username|] == d.username
      && r[129..129 + |d.lobby|] == d.lobby
      && ZeroPadded(r)
  {
    var r := UserData(d);
    var u, l := d.username, d.lobby;
    assert r == [r[0], r[1]] + u + Zeros(127 - |u|) + l + Zeros(127 - |l|);
    assert r[2..2 + |u|] == u;
    assert r[129..129 + |l|] == l;
  }

  /** Decoding the encoding of valid connection data gives it back. */
  lemma RoundTrip(d: ConnectionData)
    requires Valid(d)
    ensures FromUserData(UserData(d)) == Some(d)
  {
    UserDataLayout(d);
  }

  /** Conversely, a zero-padded array that decodes is exactly the encoding of what it decodes to. */
  lemma EncodeAfterDecode(userData: seq<u8>)
    requires |userData| == NetcodeUserDataBytes && ZeroPadded(userData)
    requires FromUserData(userData).Some?
    ensures Valid(FromUserData(userData).value)
    ensures UserData(FromUserData(userData).value) == userData
  {
    var d := FromUserData(userData).value;
    var r := UserData(d);
    UserDataLayout(d);
    assert forall k :: 0 <= k < NetcodeUserDataBytes ==> r[k] == userData[k] by {
      forall k | 0 <= k < NetcodeUserDataBytes ensures r[k] == userData[k] {
        if 2 <= k < 2 + |d.username| {
          assert r[k] == r[2..2 + |d.username|][k - 2];
        } else if 129 <= k < 129 + |d.lobby| {
          assert r[k] == r[129..129 + |d.lobby|][k - 129];
        }
      }
    }
  }

  /** A username length of 128 passes the decoder's slicing, so it returns a username longer than `try_new` admits. */
  lemma OversizedUsernameDecodes()
    ensures var userData := [128 as u8, 0] + seq(128, _ => 0x61) + Zeros(126);
      && |userData| == NetcodeUserDataBytes
      && FromUserData(userData).Some?
      && !Valid(FromUserData(userData).value)
  {
    var a: seq<u8> := seq(128, _ => 0x61);
    var userData := [128 as u8, 0] + a + Zeros(126);
    assert userData[2..130] == a;
    assert userData[129..129] == [];
    Utf8.AsciiIsUtf8(a);
  }

  /** `from_user_data` with both lengths checked against the slot size: corrupted data yields `None` rather than oversized strings. */
  function FromUserDataChecked(userData: seq<u8>): (r: Option<ConnectionData>)
    requires |userData| == NetcodeUserDataBytes
    ensures userData[0] as int > 127 || userData[1] as int > 127 ==> r == None
    ensures r.Some? ==> Valid(r.value) && FromUserData(userData) == r
  {
    var usernameLen := userData[0] as nat;
    var lobbyLen := userData[HeaderPartBytes] as nat;
    if usernameLen > MaxDataPartBytes || lobbyLen > MaxDataPartBytes then None
    else
      var username := userData[HeaderBytes..HeaderBytes + usernameLen];
      var lobby := userData[LobbyOffset..LobbyOffset + lobbyLen];
      if IsUtf8(username) && IsUtf8(lobby) then Some(ConnectionData(username, lobby)) else None
  }

  /** The checked decoder is the source's decoder restricted to data `try_new` would accept, and it still inverts the encoder. */
  lemma CheckedDecoderAgrees(userData: seq<u8>, d: ConnectionData)
    requires |userData| == NetcodeUserDataBytes
    ensures FromUserDataChecked(userData)
      == (if FromUserData(userData).Some? && Valid(FromUserData(userData).value) then FromUserData(userData) else None)
    ensures Valid(d) ==> FromUserDataChecked(UserData(d)) == Some(d)
  {
    if Valid(d) {
      RoundTrip(d);
    }
  }

  /** "username" */
  const UsernameText: seq<u8> := [0x75, 0x73, 0x65, 0x72, 0x6E, 0x61, 0x6D, 0x65]
  /** "lobby" */
  const LobbyText: seq<u8> := [0x6C, 0x6F, 0x62, 0x62, 0x79]
  /** " 😊🐬💕😘👌  \n" */
  const WeirdUsername: seq<u8> := [0x20] + Smile + Dolphin + Hearts + Kiss + Ok + [0x20, 0x20, 0x0A]
  /** "\t😊🐬💕aa😘👌  \n" */
  const WeirdLobby: seq<u8> := [0x09] + Smile + Dolphin + Hearts + [0x61, 0x61] + Kiss + Ok + [0x20, 0x20, 0x0A]
  const Smile: seq<u8> := [0xF0, 0x9F, 0x98, 0x8A]
  const Dolphin: seq<u8> := [0xF0, 0x9F, 0x90, 0xAC]
  const Hearts: seq<u8> := [0xF0, 0x9F, 0x92, 0x95]
  const Kiss: seq<u8> := [0xF0, 0x9F, 0x98, 0x98]
  const Ok: seq<u8> := [0xF0, 0x9F, 0x91, 0x8C]

  /** The 300-byte username of the source's rejection test. */
  const LongUsername: seq<u8> := seq(300, _ => 0x61)

  lemma UsernameTextIsUtf8()
    ensures IsUtf8(UsernameText)
  {
  }

  lemma LobbyTextIsUtf8()
    ensures IsUtf8(LobbyText)
  {
  }

  /** The source's tests with "username" and "lobby": the pair is accepted and round-trips. */
  lemma PlainDataCases()
    ensures IsUtf8(UsernameText) && IsUtf8(LobbyText)
    ensures TryNew(UsernameText, LobbyText) == Some(ConnectionData(UsernameText, LobbyText))
    ensures FromUserData(UserData(ConnectionData(UsernameText, LobbyText))) == Some(ConnectionData(UsernameText, LobbyText))
  {
    UsernameTextIsUtf8();
    LobbyTextIsUtf8();
    RoundTrip(ConnectionData(UsernameText, LobbyText));
  }

  /** The source's rejection test: a 300-byte username is refused. */
  lemma LongUsernameRejected()
    ensures IsUtf8(LongUsername) && TryNew(LongUsername, LobbyText) == None
  {
    Utf8.AsciiIsUtf8(LongUsername);
    LobbyTextIsUtf8();
  }

  lemma SingleScalar(s: seq<u8>)
    requires s != [] && FirstScalarLength(s) == |s|
    ensures IsUtf8(s)
  {
    assert s[|s|..] == [];
  }

  lemma WeirdUsernameIsUtf8()
    ensures IsUtf8(WeirdUsername)
  {
    SingleScalar(Smile);
    SingleScalar(Dolphin);
    SingleScalar(Hearts);
    SingleScalar(Kiss);
    SingleScalar(Ok);
    Utf8.AsciiIsUtf8([0x20]);
    Utf8.AsciiIsUtf8([0x20, 0x20, 0x0A]);
    Utf8.Concat([0x20], Smile);
    Utf8.Concat([0x20] + Smile, Dolphin);
    Utf8.Concat([0x20] + Smile + Dolphin, Hearts);
    Utf8.Concat([0x20] + Smile + Dolphin + Hearts, Kiss);
    Utf8.Concat([0x20] + Smile + Dolphin + Hearts + Kiss, Ok);
    Utf8.Concat([0x20] + Smile + Dolphin + Hearts + Kiss + Ok, [0x20, 0x20, 0x0A]);
  }

  lemma WeirdLobbyIsUtf8()
    ensures IsUtf8(WeirdLobby)
  {
    SingleScalar(Smile);
    SingleScalar(Dolphin);
    SingleScalar(Hearts);
    SingleScalar(Kiss);
    SingleScalar(Ok);
    Utf8.AsciiIsUtf8([0x09]);
    Utf8.AsciiIsUtf8([0x61, 0x61]);
    Utf8.AsciiIsUtf8([0x20, 0x20, 0x0A]);
    Utf8.Concat([0x09], Smile);
    Utf8.Concat([0x09] + Smile, Dolphin);
    Utf8.Concat([0x09] + Smile + Dolphin, Hearts);
    Utf8.Concat([0x09] + Smile + Dolphin + Hearts, [0x61, 0x61]);
    Utf8.Concat([0x09] + Smile + Dolphin + Hearts + [0x61, 0x61], Kiss);
    Utf8.Concat([0x09] + Smile + Dolphin + Hearts + [0x61, 0x61] + Kiss, Ok);
    Utf8.Concat([0x09] + Smile + Dolphin + Hearts + [0x61, 0x61] + Kiss + Ok, [0x20, 0x20, 0x0A]);
  }

  /** The source's test with emoji: multi-byte UTF-8 names are accepted and round-trip byte for byte. */
  lemma WeirdDataCase()
    ensures IsUtf8(WeirdUsername) && IsUtf8(WeirdLobby)
    ensures |WeirdUsername| == 24 && |WeirdLobby| == 26
    ensures TryNew(WeirdUsername, WeirdLobby) == Some(ConnectionData(WeirdUsername, WeirdLobby))
    ensures FromUserData(UserData(ConnectionData(WeirdUsername, WeirdLobby))) == Some(ConnectionData(WeirdUsername, WeirdLobby))
  {
    WeirdUsernameIsUtf8();
    WeirdLobbyIsUtf8();
    RoundTrip(ConnectionData(WeirdUsername, WeirdLobby));
  }
}
