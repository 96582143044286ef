# Commandment models: command queue, device token, app paths

A Dafny model of the behaviour attached to the records of `commandment/models.py`,
the persistence layer of the Commandment MDM server:

- **Command queue** (`commands.dfy`, module `Commands`). The commands table is a
  sequence of rows in insertion order. `Command.from_model` builds a new, unflushed
  command object. `Insert` stands for the database INSERT of such an object: it
  fills in the column defaults (status `Queued`, `ttl` 5), enforces the NOT NULL
  columns and the UNIQUE `uuid`, and assigns an id above every id in use.
  `Command.find_by_uuid` is `FindByUuid`, with the two errors of `Query.one()`.
  `Command.get_next_device_command` is specified by the function
  `NextDeviceCommand` and carried out by the method `GetNextDeviceCommand`, a scan
  that keeps the queued command of least id seen so far.
- **Device token** (`devices.dfy`, class `Devices.Device`). The `token` hybrid
  property stores octets in the `_token` column as base 64 text (RFC 4648,
  section 4: standard alphabet, `=` padding) and decodes them on read; `None` is
  passed through. `hex_token` gives the decoded token as lowercase hexadecimal.
  `platform` says macOS only for the model name `iMac`. The codecs are in
  `base64.dfy` and `hex.dfy`.
- **App file names** (`apps.dfy`, module `Apps`). `App.path_format` is
  `'%010d.dat' % id`, including Python's handling of a negative id (the sign counts
  towards the width of ten).

Each operation is given a partner and a lemma connecting the two:

- the base 64 and hex encoders have decoders, and `Decode(Encode(b))` is proved for both;
- `path_format` has a parser `ParsePath` that reads the id back;
- the selection method is proved equal to its specification function, and that
  function is proved to return the queued command of least id, which is the earliest
  inserted one;
- the lookup by uuid finds each row just after it is inserted.

The model follows what the code does, not what its comments suggest:

- The docstring of `Command` says a command must not be sent before `after`, and
  that `ttl` counts the retries left (commandment/models.py:369-370). The comment on
  the query mentions `NotNow` (commandment/models.py:423). Yet
  `get_next_device_command` filters on the device and on status `Queued` only. It
  does not look at `after` or `ttl`, and it does not hold back while another command
  of the device is `Sent`. `SelectionReadsOnlyKeys` and `FirstEnqueuedFirstDelivered`
  state this.
- `find_by_uuid` is not scoped to a device.
- No status transition, ttl decrement or push throttling exists in this file.

Where the source depends on code that is not part of this model, the model chooses
its own stand-ins:

- The status enumeration lives in the `commandment.mdm` module, which is not part of this
  model. The model uses the six statuses `Queued`, `Sent`, `Acknowledged`, `Error`,
  `NotNow` and `Expired`. Only `Queued` plays a role.
- The `Platform` enumeration also lives there. The model has the two values the
  property returns.
- The database's id generator is modelled as "one more than the larger of 0 and the
  largest id in use", so 1 for an empty table.

## Model

| member | source | states |
|---|---|---|
| `Commands.FromModel` | commandment/models.py:400-407 | the new object carries the protocol command's request type, uuid and parameters; every other column (status, ttl, after, device) is left unset |
| `Commands.Insert` | commandment/models.py:376-396 | an INSERT fails exactly when request type or uuid is missing or the uuid is already taken; otherwise it appends one row, leaves every existing row as it was, and gives the new row an id above all existing ids |
| `Commands.InsertRow` | commandment/models.py:383-393 | the inserted row keeps every assigned column and takes the defaults for unassigned ones: status `Queued`, ttl 5 |
| `Commands.InsertWellFormed` | commandment/models.py:376-380 | inserting keeps ids increasing in table order and uuids unique |
| `Commands.NextId` | commandment/models.py:376 | the id given to a new row is larger than every id in the table |
| `Commands.FindByUuid` | commandment/models.py:409-419 | on success the row is in the table, has the uuid, and is the only row with it; `NoResultFound` exactly when no row has the uuid |
| `Commands.FindByUuidMultiple` | commandment/models.py:419 | `MultipleResultsFound` exactly when two different rows carry the uuid |
| `Commands.FindByUuidUnique` | commandment/models.py:380 | with `uuid` unique the lookup succeeds exactly when some row has the uuid |
| `Commands.FindInserted` | commandment/models.py:409-419 | right after an insert, the lookup by the new uuid returns the new row |
| `Commands.NextDeviceCommand` | commandment/models.py:421-426 | the result is a row of the table, attached to the device, with status `Queued`, whose id is no larger than that of any such row; None exactly when the device has no `Queued` command |
| `Commands.GetNextDeviceCommand` | commandment/models.py:421-426 | the scan returns exactly the command the query specifies |
| `Commands.NextIsLeastQueued` | commandment/models.py:424-426 | with unique ids, a command is selected if and only if it is a `Queued` command of the device with the least id among them |
| `Commands.NextIsEarliestQueued` | commandment/models.py:426 | first enqueued, first selected: row k is selected if and only if it is `Queued` for the device and no earlier row is |
| `Commands.InsertKeepsSelection` | commandment/models.py:424-426 | inserting a command never displaces the selected command; it is selected only if the device had no `Queued` command and it is one |
| `Commands.SelectionReadsOnlyKeys` | commandment/models.py:424-426 | tables that agree on id, device and status row by row select the same command: `after`, ttl, uuid and parameters play no part |
| `Commands.FirstEnqueuedFirstDelivered` | commandment/models.py:422-426 | commands A then B enqueued for an idle device come out A first; once A has any status other than `Queued` (`Sent` included) B is selected |
| `Commands.MaxId` | commandment/models.py:376 | no id in the table exceeds the computed maximum |
| `Base64.CharOf` | commandment/models.py:232 | each of the 64 values has a non-padding character that decodes back to it |
| `Base64.Encode` | commandment/models.py:232 | the encoding is 4 * ceil(n/3) characters long, each an alphabet character or `=`; a final group of one or two octets ends in `==` or `=`, and the fill bits of its last sextet are zero, as RFC 4648 section 3.5 requires |
| `Base64.Decode` | commandment/models.py:228 | an incorrect-padding error exactly when the length is not a multiple of four; an invalid-character error exactly when, the trailing padding aside, some character is outside the alphabet |
| `Base64.DecodeEncode` | commandment/models.py:226-232 | decoding the encoding of any octets gives back those octets |
| `Hex.Encode` | commandment/models.py:240 | two lowercase hexadecimal digits per octet |
| `Hex.Decode` | commandment/models.py:240 | a successful decode gives half as many octets as characters |
| `Hex.DecodeEncode` | commandment/models.py:240 | `unhexlify(hexlify(b)) == b` |
| `Devices.Device.Token` | commandment/models.py:226-228 | reading gives None exactly when the column is None, fails exactly when the stored text is not valid base 64, and otherwise returns the base 64 decoding of the stored text |
| `Devices.Device.SetToken` | commandment/models.py:230-232 | after setting octets b the column holds their base 64 text and reading gives b back; setting None stores None and reads None; `hex_token` then is the hex of b, or None |
| `Devices.Device.HexToken` | commandment/models.py:234-240 | None exactly when no token is stored; otherwise lowercase hexadecimal, two digits per octet of the decoded token, decoding back to it; fails exactly when reading the token fails |
| `Devices.Device.Platform` | commandment/models.py:274-279 | macOS if and only if the model name is `iMac`; iOS for every other name and for None |
| `Apps.PathFormat` | commandment/models.py:451-452 | fails exactly when the id is unset; otherwise at least 14 characters ending in `.dat` |
| `Apps.PathFormatRoundTrip` | commandment/models.py:451-452 | the id is read back from the file name |
| `Apps.PathFormatFixedWidth` | commandment/models.py:451-452 | every id from 0 to 10^10 - 1 gives exactly ten decimal digits followed by `.dat`, 14 characters |
| `Apps.PathFormatLength` | commandment/models.py:451-452 | for every id the name is the sign and digits of the id, zero-filled up to ten characters and no further, plus `.dat`: its length is 4 + max(10, sign + digits), so with the round trip the text is fixed for negative and for ids of eleven or more digits too |

## Left out

- The SQLAlchemy and Flask mapping, sessions, relationships and `query` plumbing are left out. Each query is a function over the sequence of rows.
- Certificates, `RSAPrivateKey`, `InstalledApplication`, `InstalledCertificate`, `CommandSequence`, `User`, `DeviceUser`, `Organization`, `AppSource`, `SCEPConfig` and `DEPConfig` are left out. They declare columns and have no behaviour.
- `InternalCA.get_next_serial` is left out: its body is empty.
- The `Device.unlock_token` setter is left out. It depends on the foreign `biplist` data type and encodes the class rather than the value.
- `DEPConfig.last_check_delta` is left out: it reads the wall clock. The `queued_at` default is left out too. It is written `datetime.datetime.utcnow()`, with the call, so Python evaluates it once when the module is imported. Every row inserted without a `queued_at` then gets that same import-time timestamp, not the time of its own insert. `sent_at` and `acknowledged_at` are left out because nothing in this file reads or writes them.
- Status transitions, ttl expiry, `after` gating, push throttling and per-device locking are not modelled, because this file does not implement them.
- Concurrent access to the tables is not modelled.
- Commands.FindByUuid: the uuid is modelled as an already-normalised, opaque string compared exactly. The `uuid` column has the type `GUID` from `commandment.dbtypes`, which is not part of this model. Such a type usually parses its argument before comparing, so letter case and hyphens would not matter and a malformed string would raise `ValueError` rather than `NoResultFound`. That conversion is not modelled.
- Commands.Insert: does not tell a column explicitly set to None apart from an unset one, and does not model an id assigned by the program. The model has only "unset", and the id always comes from the generator.
- Base64.Decode: accepts only texts laid out as the RFC describes. CPython's lenient `b64decode` also skips characters outside the alphabet and tolerates some irregular padding. Such texts can only reach the column from outside the `token` setter. Like CPython, the model does not check the unused low bits of the last group.
- Devices.Device.Token: does not model the Python 3 detail that `b64encode` returns `bytes` while the column is a string column. The stored text is modelled as characters.
