/**
 * Record layouts, the protocol selector and the buffer-length constants
 * shared by the configuration loader and the hex renderer (main/params.h).
 */
module Params {

  newtype byte = x: int | 0 <= x < 0x100
  newtype uint16 = x: int | 0 <= x < 0x1_0000
  newtype uint32 = x: int | 0 <= x < 0x1_0000_0000

  const HOST_NAME_LEN: nat := 64
  const ID_LEN: nat := 64
  const PW_LEN: nat := ID_LEN
  const TOKEN_LEN: nat := 128

  const DEVICE_ID_LEN: nat := 6
  const DEVICE_ID_STR_LEN: nat := DEVICE_ID_LEN * 2 + 1
  const SERIAL_LEN: nat := 16
  const SERIAL_STR_LEN: nat := SERIAL_LEN * 2 + 1

  /** `enum proto_t`: DHCP is 0 and STATIC follows it. */
  datatype Proto = DHCP | STATIC {
    function Code(): uint32 {
      match this
      case DHCP => 0
      case STATIC => 1
    }
  }

  /**
   * How the loader reads the stored enum: it only asks whether the code is
   * STATIC, so every other code (zero in particular) reads as DHCP.
   */
  function ProtoOf(code: uint32): (p: Proto)
    ensures p == STATIC <==> code == STATIC.Code()
  {
    if code == STATIC.Code() then STATIC else DHCP
  }

  lemma ProtoCodeRoundTrip(p: Proto)
    ensures ProtoOf(p.Code()) == p
  {
  }

  /** `esp_netif_ip_info_t`: three IPv4 addresses, one 32-bit word each. */
  datatype IpInfo = IpInfo(ip: uint32, netmask: uint32, gw: uint32)

  /** `struct nvram_net`; `proto` is the raw enum code as stored. */
  datatype Net = Net(proto: uint32, ipInfo: IpInfo)

  /** `struct nvram_mqtt`; host, id and pw are fixed-size character buffers. */
  datatype Mqtt = Mqtt(enable: bool, host: seq<byte>, port: uint16, id: seq<byte>, pw: seq<byte>) {
    predicate Valid() {
      |host| == HOST_NAME_LEN && |id| == ID_LEN && |pw| == PW_LEN
    }
  }

  /** `struct nvram_token`: two fixed-size token buffers. */
  datatype Token = Token(access: seq<byte>, refresh: seq<byte>) {
    predicate Valid() {
      |access| == TOKEN_LEN && |refresh| == TOKEN_LEN
    }
  }

  /** `struct nvram_misc`, with the provisioning flag the loader reads. */
  datatype Misc = Misc(provDone: bool, tgs5141: uint32)

  /** `struct nvram_beacon`. */
  datatype Beacon = Beacon(enable: bool)

  function Zeros(n: nat): (z: seq<byte>)
    ensures |z| == n
    ensures forall i :: 0 <= i < n ==> z[i] == 0
  {
    seq(n, _ => 0)
  }

  /** The records as `memset(0)` leaves them. */
  const ZERO_NET: Net := Net(0, IpInfo(0, 0, 0))
  const ZERO_TOKEN: Token := Token(Zeros(TOKEN_LEN), Zeros(TOKEN_LEN))
  const ZERO_MQTT: Mqtt := Mqtt(false, Zeros(HOST_NAME_LEN), 0, Zeros(ID_LEN), Zeros(PW_LEN))
  const ZERO_MISC: Misc := Misc(false, 0)
  const ZERO_BEACON: Beacon := Beacon(false)

  /** A zeroed network record selects DHCP. */
  lemma ZeroNetIsDhcp()
    ensures ProtoOf(ZERO_NET.proto) == DHCP
  {
  }

  /** Every fixed-size buffer of a record has the length params.h gives it. */
  lemma RecordSizes()
    ensures ZERO_TOKEN.Valid() && ZERO_MQTT.Valid()
    ensures PW_LEN == ID_LEN == 64 && TOKEN_LEN == 128 && HOST_NAME_LEN == 64
    ensures DEVICE_ID_STR_LEN == 13 && SERIAL_STR_LEN == 33
  {
  }
}
