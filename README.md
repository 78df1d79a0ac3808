# NVRAM configuration loader and hex renderer — a Dafny model

This project models the persisted-configuration subsystem of an ESP32-S3
sensor firmware. It covers three pieces:

- the loader `nvram_init` in `main/nvram.c`. At start-up it zeroes the
  process-wide snapshot `nvdata` and brings up the flash store, erasing and
  re-initialising it once when the first init asks for formatting. It then
  derives the device identity, reads the beacon record and reads the four
  mandatory records (net, token, mqtt, misc) under a short-circuit `||`.
  When one of the four fails it reports "Provisioning Required";
- the hex renderer in `main/utils.c` (`hex2char`, `bin2hex`), which the
  loader uses to render the device id and the serial;
- the record types and length constants in `main/params.h`.

Modules, one per component:

- `Params` (`params.dfy`): byte and word types, the length constants, the
  `proto_t` enum and one datatype per record, with their zeroed values.
- `Utils` (`utils.dfy`): `Hex2Char` as a function returning a digit or
  `Invalid`, and `Bin2Hex` as a method that fills a `char` array in place.
  `Hex2Char` is stated against the digit table `HEX_DIGITS`. `Bin2Hex` is
  proved to write the reference rendering `HexOf`, whose layout, alphabet
  and round trip (`FromHex`) are proved as lemmas.
- `Store` (`store.dfy`): the flash key-value store as an oracle class `Nvs`.
  It holds a map from key to stored record, a switch saying whether
  `nvs_open` fails, and a ghost trace of every call made into it.
- `Nvram` (`nvram.dfy`): pure functions that say what `nvram_init` does.
  These are the store calls it makes (`InitOps`), the store it leaves
  (`AfterSetup`), which records end up loaded (`Loaded`) and whether
  provisioning is reported (`ProvisioningRequired`), with lemmas about them.
  Then the class `NvData`, the snapshot `nvdata`, whose methods are the
  readers, the clear and `Init`. `Init`, `ReadMandatory` and the four
  mandatory readers are proved to match those functions. `ReadIds`,
  `ReadFold`, `ReadBeacon` and `Clear` state their new contents directly:
  the hex rendering `HexOf`, the stored or default folds, the stored or
  disabled beacon, and zeros.

Inputs the firmware gets from outside are parameters:

- the MAC read by `esp_read_mac`;
- the 128-bit hash `XXH3_128bits`, a function from bytes to 16 bytes;
- the two results `nvs_flash_init` reports;
- the store's contents and its open-fails switch.

The "Provisioning Required" log line is the boolean result of `Init`.

What the source does not compile as written, and how the model reads it:

- `nvram_read_misc` and `nvram_get_prov_done` read `misc->prov_done`
  (main/nvram.c:165, 226), but `struct nvram_misc` has only `tgs5141`
  (main/params.h:49-51). `Misc` carries a `provDone` flag beside `tgs5141`.
- `nvram_read_net` logs `net->ipaddr` (main/nvram.c:81), but the struct
  holds `ip_info` (main/params.h:26-29). `Net` holds an `IpInfo` with ip,
  netmask and gateway.
- `nvram_read_fold` reads `sizeof(struct nvram_fold)` bytes but indexes
  `fold[i]` for every sensor type (main/nvram.c:181, 189), while `fold` is a
  single byte (main/params.h:46). The folds are an array with one byte per
  sensor type, and a stored "folds" blob holds that many bytes.
  `CONFIG_MAX_NUM_OF_SENSOR_TYPES` comes from the build configuration, which
  is not part of this model. It is the array length chosen when the snapshot
  is built.
- `struct nvram_ids` is not declared in any file shown. The identity is four
  arrays of 6, 13, 16 and 33 bytes or characters, the sizes
  `nvram_read_ids` writes.

How the model reads the code where it departs from its evident intent:

- `nvram_read_fold` sets every fold to the default 10 when no folds are
  stored (main/nvram.c:187-190). `nvram_init` never calls it
  (main/nvram.c:244-250), so after `Init` every fold entry is still 0.
  `ReadFold` is modelled and proved on its own.
- The readers do not decode or size-check blobs. A record is either present
  under its key or missing; a stored record of the wrong size is excluded by
  the store's well-formedness predicate and is not treated as a read error.
- An erase that fails aborts through `ESP_ERROR_CHECK`; the model does not
  include that path (see below).

## Model

| member | source | states |
|---|---|---|
| `Params.ProtoCodeRoundTrip` | main/params.h:21-24 | DHCP has code 0 and STATIC code 1, and reading a code back gives the same protocol |
| `Params.ZeroNetIsDhcp` | main/params.h:21-24 | a zeroed network record selects DHCP |
| `Params.RecordSizes` | main/params.h:11-19 | PW_LEN equals ID_LEN (64), tokens are 128 bytes, the host name is 64 bytes, and the id and serial strings are 13 and 33 characters (2*n+1) |
| `Utils.Hex2Char` | main/utils.c:11-21 | a nibble 0..15 becomes the digit at that index of "0123456789abcdef" with status 0; a larger value gives no digit and status -EINVAL |
| `Utils.HexValue` | main/utils.c:11-21 | inverse of the digit map: every value is below 16, and a lowercase hex digit's value maps back to that digit |
| `Utils.HexOf` | main/utils.c:28-35 | the rendering of n bytes is exactly 2n characters |
| `Utils.HexOfAt` | main/utils.c:28-35 | position 2i holds the digit of the high nibble of byte i, position 2i+1 the digit of its low nibble |
| `Utils.HexOfDigits` | main/utils.c:28-35 | every character of the rendering is one of 0-9a-f |
| `Utils.HexRoundTrip` | main/utils.c:28-35 | decoding the rendering one digit pair per byte gives the original bytes |
| `Utils.HexOfInjective` | main/utils.c:28-35 | two buffers with the same rendering are equal |
| `Utils.Bin2Hex` | main/utils.c:23-39 | with hexlen < 2n+1 it returns 0 and leaves the buffer unchanged; otherwise it writes the rendering into the first 2n cells and NUL at 2n, returns 2n and leaves every later cell as it was; the hex2char failure branches are proved unreachable |
| `Store.KeyNamesDistinct` | main/nvram.c:71-212 | the six key strings net, token, mqtt, misc, folds and beacon are distinct, so each record has a key of its own |
| `Store.Nvs.FlashInit` | main/nvram.c:235 | returns the result the platform reports and logs one init call |
| `Store.Nvs.FlashErase` | main/nvram.c:240 | the store is empty afterwards and one erase call is logged |
| `Store.Nvs.Open` | main/nvram.c:63 | succeeds exactly when the store's open does not fail; a handle is held only on success |
| `Store.Nvs.GetBlob` | main/nvram.c:71 | returns the record stored under the key, or None when the key is missing; needs an open handle |
| `Store.Nvs.Close` | main/nvram.c:72 | releases the handle |
| `Nvram.BeaconAfter` | main/nvram.c:202-223 | the beacon ends enabled only when the namespace opened and a stored beacon record with enable set was read; a failed open leaves the zero record and a failed get disables it |
| `Nvram.ReaderOpsFacts` | main/nvram.c:60-90 | one reader fetches its own key once and nothing else, never touches the flash setup, and closes the handle right after its one get |
| `Nvram.AttemptedPrefix` | main/nvram.c:247-250 | the readers that run are a non-empty prefix of the list, and reader i runs exactly when every reader before it succeeded |
| `Nvram.ReadersGetKeys` | main/nvram.c:247-250 | the mandatory readers fetch exactly their keys in order, or nothing when the open fails |
| `Nvram.ReadersBracketed` | main/nvram.c:60-170 | every handle the readers open is used for one get and closed immediately after |
| `Nvram.ReadersDoNotFormat` | main/nvram.c:60-170 | the readers never initialise or erase the flash |
| `Nvram.LoadedInOrder` | main/nvram.c:247-250 | a mandatory record is loaded exactly when it and every record before it in the order net, token, mqtt, misc read successfully |
| `Nvram.ProvisioningRequiredIff` | main/nvram.c:247-252 | provisioning is reported iff some mandatory record fails to read, equivalently iff some mandatory record is not loaded |
| `Nvram.ProvisioningIgnoresOptional` | main/nvram.c:244-252 | adding, replacing or removing the folds or beacon blob never changes whether provisioning is reported |
| `Nvram.NotCalledAfterFailure` | main/nvram.c:247-250 | when reader i fails, no later mandatory reader runs and no later mandatory record is loaded |
| `Nvram.MandatoryAttempted` | main/nvram.c:247-250 | the mandatory readers that run are net alone, net and token, net to mqtt, or all four, stopping at the first that fails |
| `Nvram.MandatoryLoaded` | main/nvram.c:247-252 | net loads iff it reads, token iff net and token read, and so on; provisioning is reported iff not all four read |
| `Nvram.MandatoryReadersOps` | main/nvram.c:247-250 | the store calls of the mandatory reads are those of net, then token after net read, mqtt after both read, misc after all three read |
| `Nvram.MandatoryCases` | main/nvram.c:247-252 | net loads iff it reads, token iff net and token read, and so on; provisioning is reported iff not all four read; the store calls are those of the readers that ran |
| `Nvram.EraseAtMostOnce` | main/nvram.c:235-242 | the flash is erased at most once: exactly once when the first init reports no free pages or a new version, and then the store is empty; otherwise it is initialised once and left as it was |
| `Nvram.InitFlashResults` | main/nvram.c:235-242 | the flash inits of the loader report exactly `first`, or `first` then `second` after an erase; the readers make no init call |
| `Nvram.InitGetKeys` | main/nvram.c:244-250 | the loader fetches beacon first, then the mandatory keys in order up to the first failure; it fetches nothing when the open fails |
| `Nvram.InitBracketed` | main/nvram.c:231-253 | every handle the loader opens is used for one get and closed straight after; no get or close happens without an open handle |
| `Nvram.EmptyStoreOutcome` | main/nvram.c:235-252 | after an erase or on an empty store, provisioning is reported, no mandatory record is loaded, the beacon is disabled, and only beacon and net are fetched |
| `Nvram.InitFlash` | main/nvram.c:235-242 | flash init, and after a "needs formatting" result an erase and one more init whose result is ignored; the store afterwards is the erased or unchanged store |
| `Nvram.NvData.constructor` | main/nvram.c:25-35 | the snapshot with its fold array of the given length and identity buffers of 6, 13, 16 and 33 cells |
| `Nvram.ProvDoneMeansProvisioned` | main/nvram.c:225-227 | the provisioning flag the snapshot holds after the loader (the stored misc flag if misc loaded, false otherwise) is set only when provisioning is not reported |
| `Nvram.NvData.ReadIds` | main/nvram.c:45-58 | returns true; the id is the MAC, its string is the hex of the MAC plus NUL in exactly 13 cells, the serial is the hash of the MAC, and the serial string is that hash's hex plus NUL in exactly 33 cells |
| `Nvram.NvData.ReadNet` | main/nvram.c:60-90 | returns true iff the open and the get succeed; the record is replaced only then; the calls are a failed open, or open, get, close |
| `Nvram.NvData.ReadToken` | main/nvram.c:92-116 | as ReadNet, for the token record |
| `Nvram.NvData.ReadMqtt` | main/nvram.c:118-144 | as ReadNet, for the MQTT record |
| `Nvram.NvData.ReadMisc` | main/nvram.c:146-170 | as ReadNet, for the misc record |
| `Nvram.NvData.ReadFold` | main/nvram.c:172-200 | returns true iff the get succeeds; on success the folds are the stored ones, after a failed get every entry is 10, after a failed open they are unchanged |
| `Nvram.NvData.ReadBeacon` | main/nvram.c:202-223 | returns false only when the open fails, leaving the record unchanged; a failed get sets enable to false and still returns true |
| `Nvram.NvData.ReadMandatory` | main/nvram.c:247-250 | true iff all four mandatory records read; each of the four is replaced only if loaded; the store calls are those of the readers that ran, in order |
| `Nvram.NvData.Clear` | main/nvram.c:232 | every record and every buffer of the snapshot is zero |
| `Nvram.NvData.Init` | main/nvram.c:231-253 | the store ends as the setup left it and the calls are exactly InitOps; provisioning is reported as ProvisioningRequired states; each mandatory record holds its stored value if loaded and stays zero otherwise (so net reads as DHCP and the provisioning flag is false); a set provisioning flag implies provisioning is not reported; the beacon is BeaconAfter; the folds stay zero; the identity is rendered from the MAC |

## Left out

- Logging (`ESP_LOGI`, `ESP_LOGE`) and the `ip4addr_ntoa` formatting: these are observability only. The "Provisioning Required" line is the one kept, as `Init`'s result.
- `ESP_ERROR_CHECK` on `nvs_flash_erase` (main/nvram.c:240): the model treats the erase as successful. The abort taken when it fails is not modelled.
- NVS internals (`nvs_flash_init`, `nvs_flash_erase`, `nvs_open`, `nvs_get_blob`, `nvs_close`): the flash init result is a parameter, the open is a fixed switch, and a get returns the stored record or nothing. Blob-length checks inside NVS are not modelled. A failed get is assumed to leave its record untouched.
- `XXH3_128bits` (main/nvram.c:51): a function parameter from bytes to 16 bytes. Only its determinism and its dependence on the device id alone are used.
- `esp_read_mac` (main/nvram.c:46): the MAC is an input of `Init` and `ReadIds`.
- The byte layout of the stored blobs: a stored blob is the record datatype itself. Padding and byte order of the C structs are not modelled.
- `Bin2Hex`: `size_t` wrap-around of `2*buflen + 1` is not modelled. It would need a buffer of half the address space.
- `struct nvram_version` (main/params.h:57-62) is declared but used nowhere, so it is not modelled.
- main/ethernet.c, main/main.c, main/nvram.h, main/utils.h: driver bring-up, the bootstrap that calls `nvram_init`, and declarations only.
- Calling `nvram_init` twice, and concurrent readers of the snapshot: the source does neither.
