# Relay wire codec and common-environment agreement

This project models two cores of a multi-user VR application. It proves properties of each model in Dafny.

**The relay wire codec.** This is the byte format that clients and the WebSocket relay server exchange:

- Every message starts with a two-byte header `[clientId, type]`. The type is a `WebSocketEvent`.
- Primitive fields are written into a caller's `byte[]` at a moving offset: byte, bool, little-endian int, and a string with a one-byte length prefix.
- A lobby member is its client id followed by its name.
- A lobby is written in one of two forms:
  - the full form: code, name, member count, then every member;
  - the light form: code, name, member count, without the members.
- The public lobby list is the light form of every non-private lobby, one after another.
- Join codes are drawn from a 36-character alphabet using random bytes.

**The common-environment agreement.** The server collects each client's list of environment hashes and intersects them across the connected clients. It sends the agreed hashes back and clears its bookkeeping. Each client then maps the agreed hashes back to the names of its own environments. Before that, a client builds its list of available environments: its integrated scene names, then the files whose extension is a configured one.

How the model is organised:

- Operations that work by writing into or reading from a buffer are Dafny `method`s over `array<byte>`. Each is proved against a specification function on `seq<byte>`.
- A cursor (`Wire.Cursor`) pairs the buffer contents with the `ref int offset`.
- A .NET exception is the `Err` case of `Runtime.Result`, which names the exception.
- `Lobby` and `NetworkEnvironmentManager` are classes, because the source updates their fields in place.
- `LobbyMember` and `WebsocketMessage` are structs that are never shared, so they are datatypes.
- Dictionaries are association lists kept in insertion order. This is .NET's enumeration order when no key is ever removed, and neither core removes one key at a time.

Modules:

| module | file |
|---|---|
| `Runtime` | runtime.dfy |
| `Utf8` | utf8.dfy |
| `Wire` | wire.dfy |
| `WebSocketEvents` | web_socket_event.dfy |
| `WebsocketMessages` | websocket_message.dfy |
| `LobbyMembers` | lobby_member.dfy |
| `Lobbies` | lobby.dfy |
| `LobbyObjects` | lobby_object.dfy |
| `LobbyLists` | lobby_list.dfy |
| `JoinCodes` | join_code.dfy |
| `EnvironmentManagers` | network_environment_manager.dfy |

A string is *carried* when it is ASCII and has at most 255 characters. Only carried strings survive the string encoding unchanged (see `Wire.StringRoundTrip`). The lemmas `Wire.LongStringReadsEmpty` and `Wire.NonAsciiStringBreaks` show what happens to any other string, exactly as the code is written.

## Model

| member | source | states |
|---|---|---|
| Runtime.ToByte | Assets/_COLBERT/Netcode/WebSocket/shared/Lobby.cs:37 | the unchecked `(byte)` cast keeps the value modulo 256 and leaves values in 0..255 unchanged |
| WebSocketEvents.ToWire | Assets/_COLBERT/Netcode/WebSocket/shared/WebSocketEvent.cs:1-12 | every named kind is written as its fixed value (Data=0 … ClientUnreachable=7, LobbyUpdate=9) |
| WebSocketEvents.FromWire | Assets/_COLBERT/Netcode/WebSocket/shared/WebsocketMessage.cs:19 | the unvalidated `(WebSocketEvent)` cast gives a named kind exactly for the bytes 0-7 and 9 |
| WebSocketEvents.NamedValues | Assets/_COLBERT/Netcode/WebSocket/shared/WebSocketEvent.cs:3-11 | the named values are pairwise distinct and each lies in 0..255 |
| WebSocketEvents.WireRoundTrip | Assets/_COLBERT/Netcode/WebSocket/shared/WebsocketMessage.cs:50 | casting a named kind to a byte and back gives the same kind |
| WebSocketEvents.ToWireInjective | Assets/_COLBERT/Netcode/WebSocket/shared/WebsocketMessage.cs:50 | two named kinds with the same type byte are the same kind |
| WebSocketEvents.UnnamedBytes | Assets/_COLBERT/Netcode/WebSocket/shared/WebsocketMessage.cs:99 | byte 8 and bytes 10-255 decode to an unnamed kind with that value, not to an error |
| WebsocketMessages.FromData | Assets/_COLBERT/Netcode/WebSocket/shared/WebsocketMessage.cs:15-20 | the constructor succeeds exactly when data is non-null and has at least two bytes |
| WebsocketMessages.HeaderRoundTrip | Assets/_COLBERT/Netcode/WebSocket/shared/WebsocketMessage.cs:15-20 | a buffer that starts with a header gives back that header's clientId and named kind |
| WebsocketMessages.ArraySegment | Assets/_COLBERT/Netcode/WebSocket/shared/WebsocketMessage.cs:34-42 | the segment always lies inside its array, and the default segment is empty |
| WebsocketMessages.ArraySegmentIsPayload | Assets/_COLBERT/Netcode/WebSocket/shared/WebsocketMessage.cs:34-42 | the segment is exactly the bytes after the header; it is empty when data is null or has at most two bytes |
| WebsocketMessages.Deserialize | Assets/_COLBERT/Netcode/WebSocket/shared/WebsocketMessage.cs:96-100 | it returns (data[0], cast of data[1]) when there are two bytes; otherwise it fails with NullReference or IndexOutOfRange |
| WebsocketMessages.Serialize | Assets/_COLBERT/Netcode/WebSocket/shared/WebsocketMessage.cs:46-52 | it returns a fresh buffer of exactly the two header bytes |
| WebsocketMessages.SerializePayload | Assets/_COLBERT/Netcode/WebSocket/shared/WebsocketMessage.cs:54-61 | it returns the header followed by the payload, with length 2 + payload length; a null payload gives NullReference |
| WebsocketMessages.SerializeSegment | Assets/_COLBERT/Netcode/WebSocket/shared/WebsocketMessage.cs:63-70 | it returns the header followed by exactly payload.Count bytes from payload.Offset; a default segment gives ArgumentNull |
| WebsocketMessages.BlockCopy | Assets/_COLBERT/Netcode/WebSocket/shared/WebsocketMessage.cs:68 | Buffer.BlockCopy replaces count bytes at the destination offset with the source bytes and leaves every other byte as it was |
| WebsocketMessages.SerializeConnectHost | Assets/_COLBERT/Netcode/WebSocket/shared/WebsocketMessage.cs:72-83 | the returned buffer is the host connect layout; it fails exactly when the layout does |
| WebsocketMessages.SerializeConnectGuest | Assets/_COLBERT/Netcode/WebSocket/shared/WebsocketMessage.cs:85-94 | the returned buffer is the guest connect layout; it fails exactly when the layout does |
| WebsocketMessages.ConnectHostLayout | Assets/_COLBERT/Netcode/WebSocket/shared/WebsocketMessage.cs:72-83 | for carried strings the buffer is header, isPrivate, code, lobby name, member name, then 9 zero bytes of over-allocation |
| WebsocketMessages.ConnectHostRoundTrip | Assets/_COLBERT/Netcode/WebSocket/shared/WebsocketMessage.cs:72-83 | for carried strings the host buffer has length 15 + the three lengths, and reading it in write order gives back every field |
| WebsocketMessages.ConnectGuestLayout | Assets/_COLBERT/Netcode/WebSocket/shared/WebsocketMessage.cs:85-94 | for carried strings the buffer is header, code, member name, then 6 zero bytes of over-allocation |
| WebsocketMessages.ConnectGuestRoundTrip | Assets/_COLBERT/Netcode/WebSocket/shared/WebsocketMessage.cs:85-94 | for carried strings the guest buffer has length 10 + the two lengths, and reading it in write order gives back both fields |
| WebsocketMessages.ConnectGuestFits | Assets/_COLBERT/Netcode/WebSocket/shared/WebsocketMessage.cs:87 | the guest buffer is large enough exactly when each string's UTF-8 form fits in the slack left by the length-by-chars allocation |
| WebsocketMessages.SerializeByte | Assets/_COLBERT/Netcode/WebSocket/shared/WebsocketMessage.cs:111-115 | the buffer and offset end as the byte-writing specification says; an offset outside the buffer gives IndexOutOfRange |
| WebsocketMessages.DeserializeByte | Assets/_COLBERT/Netcode/WebSocket/shared/WebsocketMessage.cs:117-122 | it succeeds exactly for an offset inside the buffer, and then returns buffer[offset] with the offset advanced by 1 |
| WebsocketMessages.SerializeBool | Assets/_COLBERT/Netcode/WebSocket/shared/WebsocketMessage.cs:124-128 | it writes the bool's byte at the offset and advances the offset by 1 |
| WebsocketMessages.DeserializeBool | Assets/_COLBERT/Netcode/WebSocket/shared/WebsocketMessage.cs:129-134 | it succeeds exactly for an offset inside the buffer, and then returns whether the byte is non-zero, with the offset advanced by 1 |
| WebsocketMessages.SerializeInt | Assets/_COLBERT/Netcode/WebSocket/shared/WebsocketMessage.cs:136-140 | it writes the four little-endian bytes at the offset and advances the offset by 4 |
| WebsocketMessages.DeserializeInt | Assets/_COLBERT/Netcode/WebSocket/shared/WebsocketMessage.cs:142-147 | it succeeds exactly when four bytes are available at the offset, and then reads them as the int-decoding specification says |
| WebsocketMessages.SerializeString | Assets/_COLBERT/Netcode/WebSocket/shared/WebsocketMessage.cs:149-155 | the buffer and offset end as the string-writing specification says: a length byte, the UTF-8 bytes, and an advance by 1 + char count |
| WebsocketMessages.CopyInto | Assets/_COLBERT/Netcode/WebSocket/shared/WebsocketMessage.cs:153 | the encoder's output is spliced into the buffer at the offset, and nothing else changes |
| WebsocketMessages.DeserializeString | Assets/_COLBERT/Netcode/WebSocket/shared/WebsocketMessage.cs:157-164 | the result is the string-reading specification: a length byte, then that many bytes decoded as UTF-8 |
| Wire.ByteRoundTrip | Assets/_COLBERT/Netcode/WebSocket/shared/WebsocketMessage.cs:111-122 | writing a byte changes only the byte at the offset and advances by 1, and reading there gives the byte back |
| Wire.BoolRoundTrip | Assets/_COLBERT/Netcode/WebSocket/shared/WebsocketMessage.cs:124-134 | writing a bool changes only the byte at the offset and advances by 1, and reading there gives the bool back |
| Wire.IntRoundTrip | Assets/_COLBERT/Netcode/WebSocket/shared/WebsocketMessage.cs:136-147 | writing an int advances by 4, and reading there gives the int back |
| Wire.IntBytesInverse | Assets/_COLBERT/Netcode/WebSocket/shared/WebsocketMessage.cs:103-109 | reading back the little-endian image of an int32 gives the same int32 |
| Wire.SpliceOutside | Assets/_COLBERT/Netcode/WebSocket/shared/WebsocketMessage.cs:111-147 | a write leaves every byte outside its window unchanged |
| Wire.StringAsWritten | Assets/_COLBERT/Netcode/WebSocket/shared/WebsocketMessage.cs:149-164 | for any string, the writer advances by 1 + char count, and the reader gets the first (char count mod 256) UTF-8 bytes, decoded |
| Wire.StringRoundTripAscii | Assets/_COLBERT/Netcode/WebSocket/shared/WebsocketMessage.cs:149-164 | an ASCII string reads back truncated to its length mod 256 |
| Wire.StringRoundTrip | Assets/_COLBERT/Netcode/WebSocket/shared/WebsocketMessage.cs:149-164 | a carried string reads back unchanged, and the reader advances as far as the writer |
| Wire.LongStringReadsEmpty | Assets/_COLBERT/Netcode/WebSocket/shared/WebsocketMessage.cs:151 | a 256-character string is written with length byte 0, so it reads back empty while the writer advanced 257 bytes |
| Wire.NonAsciiStringBreaks | Assets/_COLBERT/Netcode/WebSocket/shared/WebsocketMessage.cs:153-154 | "é" is written with length byte 1 and two UTF-8 bytes but advances only 2, so it reads back as U+FFFD |
| Wire.PutStringAscii | Assets/_COLBERT/Netcode/WebSocket/shared/WebsocketMessage.cs:149-155 | an ASCII string that fits is written as its length byte and its chars, and the offset moves past them |
| Wire.GetStringAt | Assets/_COLBERT/Netcode/WebSocket/shared/WebsocketMessage.cs:157-164 | wherever a carried string's encoding sits in a buffer, reading there gives the string and the position after it |
| Utf8.DecodeEncode | Assets/_COLBERT/Netcode/WebSocket/shared/WebsocketMessage.cs:153-161 | Encoding.UTF8.GetString inverts Encoding.UTF8.GetBytes |
| Utf8.CsLengthBelowEncode | Assets/_COLBERT/Netcode/WebSocket/shared/WebsocketMessage.cs:153-154 | the UTF-16 length never exceeds the UTF-8 byte count, and the two are equal exactly for ASCII strings |
| Utf8.EncodeAscii | Assets/_COLBERT/Netcode/WebSocket/shared/WebsocketMessage.cs:153 | an ASCII string encodes to one byte per char, with each byte equal to its char |
| Utf8.DecodeAscii | Assets/_COLBERT/Netcode/WebSocket/shared/WebsocketMessage.cs:161 | ASCII bytes decode to one char per byte, with each char equal to its byte |
| LobbyMembers.Create | Assets/_COLBERT/Netcode/WebSocket/shared/LobbyMember.cs:12-18 | the constructor stores clientId, ID and name as given and clears isLocal |
| LobbyMembers.Serialize | Assets/_COLBERT/Netcode/WebSocket/shared/LobbyMember.cs:22-26 | the buffer and offset end as the clientId byte followed by the name string leave them |
| LobbyMembers.GetMember | Assets/_COLBERT/Netcode/WebSocket/shared/LobbyMember.cs:28-34 | a decoded member always has a name, no ID and isLocal false |
| LobbyMembers.Deserialize | Assets/_COLBERT/Netcode/WebSocket/shared/LobbyMember.cs:28-34 | the method reads the clientId byte and the name string, as the member-reading specification says |
| LobbyMembers.SizeIsAdvance | Assets/_COLBERT/Netcode/WebSocket/shared/LobbyMember.cs:36-39 | whenever Serialize succeeds, SerializedSize is defined and equals the offset advance |
| LobbyMembers.NullNameFails | Assets/_COLBERT/Netcode/WebSocket/shared/LobbyMember.cs:22-26 | a member without a name cannot be serialized or sized: NullReference, or IndexOutOfRange when the clientId byte already does not fit |
| LobbyMembers.PutMemberCarried | Assets/_COLBERT/Netcode/WebSocket/shared/LobbyMember.cs:22-26 | a member with a carried name is written as exactly its 2 + length bytes, and SerializedSize is that length |
| LobbyMembers.GetMemberAt | Assets/_COLBERT/Netcode/WebSocket/shared/LobbyMember.cs:28-34 | wherever a member's encoding sits, reading there gives the member with ID and isLocal reset |
| LobbyMembers.MemberRoundTrip | Assets/_COLBERT/Netcode/WebSocket/shared/LobbyMember.cs:22-34 | Deserialize after Serialize restores clientId and a carried name, and ends at the writer's offset |
| Lobbies.Set | Assets/_COLBERT/Netcode/WebSocket/shared/Lobby.cs:58 | after the indexer assignment the key is present, and the count grows only for a new key |
| Lobbies.SetAbsent | Assets/_COLBERT/Netcode/WebSocket/shared/Lobby.cs:58 | a new key is appended at the end of the enumeration order |
| Lobbies.SetPresent | Assets/_COLBERT/Netcode/WebSocket/shared/Lobby.cs:58 | an existing key has its value replaced in place |
| Lobbies.FirstLocal | Assets/_COLBERT/Netcode/WebSocket/shared/Lobby.cs:29 | it finds the first member flagged isLocal, or reports that there is none |
| Lobbies.LightThenMembers | Assets/_COLBERT/Netcode/WebSocket/shared/Lobby.cs:33-40 | Serialize writes what SerializeLight writes, then every member, and it fails where SerializeLight fails |
| Lobbies.SizeIsAdvance | Assets/_COLBERT/Netcode/WebSocket/shared/Lobby.cs:62-68 | whenever Serialize succeeds, SerializedSize is defined and equals the offset advance |
| Lobbies.PutLobbyCarried | Assets/_COLBERT/Netcode/WebSocket/shared/Lobby.cs:33-40 | a lobby with carried text writes code, name, count byte and every member's bytes |
| Lobbies.SizeCarried | Assets/_COLBERT/Netcode/WebSocket/shared/Lobby.cs:62-68 | for a carriable lobby, SerializedSize is the length of its encoding |
| Lobbies.GetLobbyAt | Assets/_COLBERT/Netcode/WebSocket/shared/Lobby.cs:42-60 | reading a carriable lobby's encoding restores code and name, recomputes id, forces isPrivate false, and rebuilds the members with ID and isLocal reset |
| Lobbies.ReadLobbyAt | Assets/_COLBERT/Netcode/WebSocket/shared/Lobby.cs:42-60 | the same, for encodings given field by field |
| Lobbies.GetAllMembersAt | Assets/_COLBERT/Netcode/WebSocket/shared/Lobby.cs:54-59 | the member loop rebuilds every member in order when each key equals its member's clientId |
| Lobbies.SetAllFresh | Assets/_COLBERT/Netcode/WebSocket/shared/Lobby.cs:50-59 | refilling a cleared dictionary with members under distinct fresh keys appends them in order |
| Lobbies.ReadLobbyLight | Assets/_COLBERT/Netcode/WebSocket/shared/Lobby.cs:81-95 | a successful light read advances by at least 3 bytes |
| Lobbies.LightSizeIsAdvance | Assets/_COLBERT/Netcode/WebSocket/shared/Lobby.cs:97-100 | whenever SerializeLight succeeds, SerializedSizeLight is defined and equals the offset advance |
| Lobbies.PutLightCarried | Assets/_COLBERT/Netcode/WebSocket/shared/Lobby.cs:74-79 | a lobby with carried text writes exactly code, name and count byte, and SerializedSizeLight is that length |
| Lobbies.GetLightAt | Assets/_COLBERT/Netcode/WebSocket/shared/Lobby.cs:81-95 | reading a light encoding gives code, name, recomputed id, isPrivate false, and (count mod 256) placeholder members |
| Lobbies.ReadLightAt | Assets/_COLBERT/Netcode/WebSocket/shared/Lobby.cs:81-95 | count placeholder members keyed 0..count-1 replace whatever the dictionary held |
| LobbyObjects.Lobby.constructor | Assets/_COLBERT/Netcode/WebSocket/shared/Lobby.cs:17-24 | a new lobby has id IdFromCode(code), the given fields, an empty member dictionary, and IsEmpty holds |
| LobbyObjects.Lobby.Empty | Assets/_COLBERT/Netcode/WebSocket/shared/Lobby.cs:26-27 | the default lobby has every field at its default, and IsEmpty holds |
| LobbyObjects.Lobby.LocalMember | Assets/_COLBERT/Netcode/WebSocket/shared/Lobby.cs:29 | it returns the first member flagged isLocal in enumeration order (no earlier member is local); a null dictionary gives ArgumentNull, and no local member gives InvalidOperation |
| LobbyObjects.Lobby.Serialize | Assets/_COLBERT/Netcode/WebSocket/shared/Lobby.cs:33-40 | the buffer and offset end as the full-form specification says for the lobby's fields |
| LobbyObjects.Lobby.Deserialize | Assets/_COLBERT/Netcode/WebSocket/shared/Lobby.cs:42-60 | on success the fields become the decoded lobby and the offset moves to its end; a failure reports the exception |
| LobbyObjects.Lobby.SerializedSize | Assets/_COLBERT/Netcode/WebSocket/shared/Lobby.cs:62-68 | the accumulator loop computes the full-form size |
| LobbyObjects.Lobby.SerializeLight | Assets/_COLBERT/Netcode/WebSocket/shared/Lobby.cs:74-79 | the buffer and offset end as the light-form specification says |
| LobbyObjects.Lobby.DeserializeLight | Assets/_COLBERT/Netcode/WebSocket/shared/Lobby.cs:81-95 | on success the fields become the light-decoded lobby and the offset moves to its end |
| LobbyLists.PublicKeeps | Assets/_COLBERT/Netcode/WebSocket/shared/Lobby.cs:109-119 | the public lobbies are exactly the non-private ones, in order |
| LobbyLists.PrivateOmitted | Assets/_COLBERT/Netcode/WebSocket/shared/Lobby.cs:106-121 | the serialized list is the same as for the public lobbies alone, so no private lobby is written |
| LobbyLists.SerializedLength | Assets/_COLBERT/Netcode/WebSocket/shared/Lobby.cs:108-113 | the buffer is exactly the sum of SerializedSizeLight over the public lobbies |
| LobbyLists.SerializedCarried | Assets/_COLBERT/Netcode/WebSocket/shared/Lobby.cs:106-121 | carried public lobbies are written back to back in their light form |
| LobbyLists.ReadLightsAt | Assets/_COLBERT/Netcode/WebSocket/shared/Lobby.cs:127-133 | the read loop decodes a sequence of light encodings, in order, up to the end of the buffer |
| LobbyLists.LobbiesRoundTrip | Assets/_COLBERT/Netcode/WebSocket/shared/Lobby.cs:106-135 | DeserializeLobbies of SerializeLobbies gives the public lobbies in order, with code, name, the member count modulo 256 (as placeholder members) and isPrivate false |
| LobbyLists.SerializeLobbies | Assets/_COLBERT/Netcode/WebSocket/shared/Lobby.cs:106-121 | the returned buffer is the list-writing specification of the lobbies' values, or that specification's exception |
| LobbyLists.DeserializeLobbies | Assets/_COLBERT/Netcode/WebSocket/shared/Lobby.cs:122-135 | null gives an empty list; otherwise it returns fresh lobbies whose values are the list-reading specification, or its exception |
| JoinCodes.Data | Assets/_COLBERT/Netcode/WebSocket/shared/Lobby.cs:155-159 | the random buffer has 4 * size bytes, each supplied by the random source |
| JoinCodes.Wrap32 | Assets/_COLBERT/Netcode/WebSocket/shared/Lobby.cs:163 | `i * 4` wraps to an int32 congruent modulo 2^32, and is unchanged when it fits |
| JoinCodes.ToUInt32 | Assets/_COLBERT/Netcode/WebSocket/shared/Lobby.cs:163 | BitConverter.ToUInt32 reads four little-endian bytes, or fails as the reading specification says |
| JoinCodes.PickIn | Assets/_COLBERT/Netcode/WebSocket/shared/Lobby.cs:164-166 | `chars[rnd % chars.Length]` is always a character of the alphabet |
| JoinCodes.KeyFromChars | Assets/_COLBERT/Netcode/WebSocket/shared/Lobby.cs:161-167 | the key has one character per iteration, and character j is picked from data word j |
| JoinCodes.KeyFromFails | Assets/_COLBERT/Netcode/WebSocket/shared/Lobby.cs:163 | if any word read fails, the whole key fails |
| JoinCodes.KeyLoop | Assets/_COLBERT/Netcode/WebSocket/shared/Lobby.cs:160-169 | the StringBuilder loop computes the key-picking specification |
| JoinCodes.GetUniqueKey | Assets/_COLBERT/Netcode/WebSocket/shared/Lobby.cs:153-170 | the method computes the join-code specification for the given random source |
| JoinCodes.UniqueKeySucceeds | Assets/_COLBERT/Netcode/WebSocket/shared/Lobby.cs:153-170 | a key exists exactly for 0 <= size < 2^29; it then has length size, and every character is in the alphabet |
| JoinCodes.EveryKeyPossible | Assets/_COLBERT/Netcode/WebSocket/shared/Lobby.cs:153-170 | every string over the alphabet of length size is produced by some random source |
| JoinCodes.RandomJoinCode | Assets/_COLBERT/Netcode/WebSocket/shared/Lobby.cs:146-149 | a join code always succeeds, has 4 characters, and uses only the alphabet |
| EnvironmentManagers.PutIds | Assets/_COLBERT/Environments/Scripts/NetworkEnvironmentManager.cs:275 | storing a report keeps the client order and adds the client at the end only when it is new |
| EnvironmentManagers.PutValues | Assets/_COLBERT/Environments/Scripts/NetworkEnvironmentManager.cs:275 | storing a report overwrites that client's list and leaves every other entry unchanged |
| EnvironmentManagers.PutDistinct | Assets/_COLBERT/Environments/Scripts/NetworkEnvironmentManager.cs:275 | storing keeps client ids distinct, and the count grows by one only for a new client |
| EnvironmentManagers.FoldIsCommon | Assets/_COLBERT/Environments/Scripts/NetworkEnvironmentManager.cs:317-346 | the foreach over the stored reports yields the agreed list, or a null list that ToArray turns into NullReference |
| EnvironmentManagers.AgreedMembers | Assets/_COLBERT/Environments/Scripts/NetworkEnvironmentManager.cs:327-343 | a hash is kept exactly when it is in the starting list and in every connected client's list |
| EnvironmentManagers.CommonMeans | Assets/_COLBERT/Environments/Scripts/NetworkEnvironmentManager.cs:317-346 | the result fails exactly when no stored client is connected; otherwise it holds exactly the hashes of the first connected client's stored list that occur in the stored list of every connected client that has a stored report |
| EnvironmentManagers.FirstConnectedNone | Assets/_COLBERT/Environments/Scripts/NetworkEnvironmentManager.cs:319 | the working list stays null exactly when no stored client is connected |
| EnvironmentManagers.DisconnectedIgnored | Assets/_COLBERT/Environments/Scripts/NetworkEnvironmentManager.cs:322-324 | reports from clients that are not connected do not affect the result |
| EnvironmentManagers.RemoveMissing | Assets/_COLBERT/Environments/Scripts/NetworkEnvironmentManager.cs:335-342 | the in-place RemoveAt/i-- loop keeps exactly the hashes the other list contains, in order, skipping none |
| EnvironmentManagers.NetworkEnvironmentManager.GetCommonHashes | Assets/_COLBERT/Environments/Scripts/NetworkEnvironmentManager.cs:317-346 | the method computes the agreement specification over the stored reports and the connected clients |
| EnvironmentManagers.NetworkEnvironmentManager.constructor | Assets/_COLBERT/Environments/Scripts/NetworkEnvironmentManager.cs:18-61 | all lists and the report table start empty, and the invariant holds |
| EnvironmentManagers.NetworkEnvironmentManager.RequestNetworkEnvironmentsServerRpc | Assets/_COLBERT/Environments/Scripts/NetworkEnvironmentManager.cs:243-246 | the reports are cleared only when no request is pending, the client is recorded at most once, and the invariant is kept |
| EnvironmentManagers.NetworkEnvironmentManager.SendNetworkEnvironmentsServerRpc | Assets/_COLBERT/Environments/Scripts/NetworkEnvironmentManager.cs:275-288 | the report is stored; once the report count equals the connected count, the agreed hashes go to the requesting clients and both tables are emptied |
| EnvironmentManagers.ToLowerInvariant | Assets/_COLBERT/Environments/Scripts/NetworkEnvironmentManager.cs:313 | the result has the same length, and every char is lower-cased |
| EnvironmentManagers.HashIgnoresCase | Assets/_COLBERT/Environments/Scripts/NetworkEnvironmentManager.cs:311-314 | names that differ only in letter case have the same environment hash |
| EnvironmentManagers.MatchesCount | Assets/_COLBERT/Environments/Scripts/NetworkEnvironmentManager.cs:298-305 | an environment occurs once for each pair of a local copy and a received hash equal to its hash |
| EnvironmentManagers.MatchesMeans | Assets/_COLBERT/Environments/Scripts/NetworkEnvironmentManager.cs:298-305 | an environment is common exactly when it is local and its hash was received |
| EnvironmentManagers.NetworkEnvironmentManager.SendNetworkEnvironmentsClientRpc | Assets/_COLBERT/Environments/Scripts/NetworkEnvironmentManager.cs:294-305 | commonEnvironments is rebuilt from empty as the matches in received-hash order, and nothing else changes |
| EnvironmentManagers.ExtensionShape | Assets/_COLBERT/Environments/Scripts/NetworkEnvironmentManager.cs:124 | Path.GetExtension is empty, or it is the path's final ".x" suffix with no dot or separator after the dot |
| EnvironmentManagers.ExtensionExact | Assets/_COLBERT/Environments/Scripts/NetworkEnvironmentManager.cs:124 | a last dot that is followed by at least one character and no separator starts the extension |
| EnvironmentManagers.FileNameShape | Assets/_COLBERT/Environments/Scripts/NetworkEnvironmentManager.cs:127 | Path.GetFileName is the path's suffix after its last separator |
| EnvironmentManagers.AdditionsMeans | Assets/_COLBERT/Environments/Scripts/NetworkEnvironmentManager.cs:125-127 | a file adds only its file name, and only when its extension equals a configured one ignoring case |
| EnvironmentManagers.FromFilesMeans | Assets/_COLBERT/Environments/Scripts/NetworkEnvironmentManager.cs:121-128 | a name is added exactly when some listed file with a configured extension has that file name |
| EnvironmentManagers.AddFromFiles | Assets/_COLBERT/Environments/Scripts/NetworkEnvironmentManager.cs:121-128 | the nested loops append, to the list, every file name the filter selects, in listing order |
| EnvironmentManagers.NetworkEnvironmentManager.UpdateAvailableEnvironments | Assets/_COLBERT/Environments/Scripts/NetworkEnvironmentManager.cs:106-128 | when spawned and not silent it only requests; otherwise environments becomes the scene names followed by the matching files |

## Left out

- The relay server (lobby registry, id allocation, routing, purging) and the client transport are not part of this model. Only the read order the relay must use is modelled, as the partner of SerializeConnect (`ReadConnectHost`, `ReadConnectGuest`).
- string.GetHashCode is `Runtime.StringHashCode`, an uninterpreted deterministic function, for both `IdFromCode` and the environment hash.
- The environment agreement compares hashes that different client processes computed, so the model assumes every client computes the same string hash, as Unity's runtime does. Where the hash is randomised per process (the standalone relay server, where only `IdFromCode` runs, in one process), nothing in the model depends on its value.
- The cryptographic random generator in GetUniqueKey is a parameter `random: nat -> byte`.
- Encoding.UTF8 is modelled only for strings of Unicode scalar values: a Dafny `char` is a scalar value, so lone surrogates cannot occur.
- The decoder's U+FFFD replacement follows the maximal-subpart rule.
- The unsafe write through `byte*` in CopyBytes is a fixed little-endian layout. Its missing bounds check becomes a `requires` on SerializeBool and SerializeInt, because an out-of-range write is undefined behaviour, not an exception.
- WebsocketMessages.SerializeByte, WebsocketMessages.SerializeString, LobbyMembers.Serialize, LobbyObjects.Lobby.Serialize, LobbyObjects.Lobby.SerializeLight: on an exception the contract does not describe bytes already written before it.
- LobbyObjects.Lobby.Deserialize: on an exception the contract states only that isPrivate is false. It does not describe the fields already overwritten before the failing read.
- LobbyObjects.Lobby.DeserializeLight: on an exception the contract states only that isPrivate is false, for the same reason.
- The Lobby's member Dictionary is a value (`Option<seq<(byte, LobbyMember)>>`), so aliasing between struct copies sharing one dictionary is not modelled.
- Sizes are unbounded integers: int32 overflow of SerializedSize and of buffer lengths, and OutOfMemory, are not modelled. The `4 * size` and `i * 4` arithmetic of GetUniqueKey is modelled with wrap-around.
- The StringBuilder capacity in GetUniqueKey has no observable effect and is not modelled.
- In NetworkEnvironmentManager, RPC dispatch and targeting are left out: RequestNetworkEnvironmentsClientRpc, ClientRpcParams, and the call from SendNetworkEnvironmentsServerRpc is returned as the value sent.
- listUpdatedEvent, scene and GLTF loading, and the environment name network variable are left out.
- SendNetworkEnvironments (the client hashing its own list, lines 258-270) is not a separate member. Its hash is `EnvironmentHash`.
- NetworkManager.ConnectedClientsIds and IsSpawned are parameters.
- Directory.Exists and Directory.GetFiles become an `Option<seq<string>>` listing, with None for a missing directory.
- ToLowerInvariant and InvariantCultureIgnoreCase are modelled for ASCII letters only. Other characters compare and hash unchanged.
- Path.GetExtension and Path.GetFileName are modelled with the Windows separators `\` and `/`. Volume separators (`C:`) are not treated specially.
- WebsocketMessages.SerializeConnectHost, WebsocketMessages.SerializeConnectGuest, WebsocketMessages.SerializeString and the functions ConnectHostBytes, ConnectGuestBytes and PutString take non-null strings, so the NullReference thrown by `lobbyCode.Length` or `s.Length` for a null string is not modelled. (Lobby and LobbyMember fields, which can be null, are `Option<string>`, and their NullReference is modelled.)
- WebsocketMessages.SerializeByte, WebsocketMessages.DeserializeByte, WebsocketMessages.SerializeBool, WebsocketMessages.DeserializeBool, WebsocketMessages.SerializeInt, WebsocketMessages.DeserializeInt, WebsocketMessages.DeserializeString, LobbyMembers.Serialize, LobbyMembers.Deserialize and the Lobby serialization methods take a non-null `array<byte>`, so the NullReference for a null buffer is not modelled.
- Null arrays in NetworkEnvironmentManager (a null fileExtensions or environmentSceneNames, a null received hash array) are not modelled: the fields and parameters are sequences.
- The loop bodies of GetUniqueKey and UpdateAvailableEnvironments, and the filter loop of GetCommonHashes, are separate methods (`JoinCodes.KeyLoop`, `EnvironmentManagers.AddFromFiles`, `EnvironmentManagers.RemoveMissing`) called by the method that owns them in the source.
