# mass_networking: input encoding, resolution flags and desync bookkeeping

`mass_networking` is a two-player rollback-netcode game built on Bevy. The
rollback engine itself (session building, snapshots, prediction, desync
detection) lives in the `ggrs` and `bevy_ggrs` libraries. What the
repository's own code contributes, and what this Dafny project models, are
three small pieces of logic:

- **Input encoder** (`input.dfy`, module `Input`). Each tick the keyboard
  state (a set of pressed keys) is packed into one byte per local player:
  rotate up/down/left/right and fire take bits 0 to 4, and each bit is bound
  to two keys. `fire` reads bit 4 back. `_direction` turns the rotate bits
  into a direction and normalises it; the model covers it only up to the
  normalisation.
- **Command-line configuration** (`decimal.dfy` and `native.dfy`, modules
  `Decimal` and `Native`). A resolution is written `"<width>,<height>"`. The
  text is split at the first comma, and each half is read the way Rust's
  `u32::from_str` reads it: one optional leading `+`, then ASCII digits
  only, with a value of at most 4294967295. The empty string fails with
  `Empty`. A lone sign or any other character fails with `InvalidDigit`.
  A value that grows too large fails with `PosOverflow`. The digits are
  scanned left to right and the first failure wins. The printer writes
  `"{w},{h}"`. The module also models the default arguments, the way the
  derived parser fills in a missing flag, and which side of the screen
  the window starts on.
- **Desync logger and session-event handling** (`desync.dfy` and
  `matchmaking.dfy`, modules `Desync` and `Matchmaking`). `LogDesync` is a
  pair of counters: `total`, and `since_reset`, the desyncs since the last
  report. Each frame `handle_ggrs_events` first reports and clears
  `since_reset` if the logging timer is due and `since_reset` is above 0;
  when it is 0 nothing is reported. Then, for a peer-to-peer session
  only, it drains the session's events; other session kinds leave them
  untouched. A disconnect or network interruption sends an exit request. A
  detected desync increments both counters. Any other event is only
  logged. `wait_for_players` holds the game in matchmaking until two
  players are known. It then registers them with handles 0..n-1 in the
  order the socket lists them and switches to `InGame`.

The Bevy timer enters as a boolean `timerDue` per frame: "just finished,
or never ticked". The socket's channel availability and player list are
inputs. The rollback session kind and its pending events are inputs too.
`wrappers.dfy` holds the `Option`/`Result` types the others share.

## Model

| member | source | states |
|---|---|---|
| Input.Flag | src/input.rs:5-9 | each action's flag is a single non-zero bit below 32 |
| Input.FlagsDisjoint | src/input.rs:5-9 | flags of different actions share no bit and are different |
| Input.Encode | src/input.rs:19-35 | the encoded byte is below 32, and an action's bit is set iff one of its two bound keys is pressed |
| Input.DecodeEncode | src/input.rs:19-35 | the set of actions read back from the encoded byte is exactly the set of actions whose keys are held |
| Input.DecodeInjective | src/input.rs:5-9 | two bytes below 32 that carry the same actions are equal, so the encoding loses nothing |
| Input.EncodeZero | src/input.rs:19-35 | the encoded byte is 0 iff no bound key is pressed |
| Input.IsFiring | src/input.rs:59-61 | `fire` is true iff the decoded actions include Fire |
| Input.FireRoundTrip | src/input.rs:33-35 | firing is read back from the encoded byte iff Space or Return is pressed, whatever else is held |
| Input.FireReadsOnlyBit4 | src/input.rs:59-61 | flipping any bits other than bit 4 does not change `fire` |
| Input.ReadLocalInputs | src/input.rs:16-38 | the inputs map has exactly the local handles as keys, and every handle maps to the byte encoded from the keyboard state |
| Input.RawDirection | src/input.rs:42-55 | each axis of the unnormalised direction is -1, 0 or 1, and with no rotate bit set the direction is zero |
| Input.DirectionOfEncode | src/input.rs:42-55 | after encoding, each axis is +1, -1 or 0 by which of its two opposing key groups is held, and holding both cancels |
| Decimal.Accumulate | dev/native/src/lib.rs:26 | the digit loop succeeds iff all characters are digits and the accumulated number fits in `u32`, and it then yields that number; it fails with `InvalidDigit` exactly when a non-digit is met before the number grows too large, and otherwise with `PosOverflow` |
| Decimal.ParseU32 | dev/native/src/lib.rs:26 | `u32::from_str` succeeds exactly on an optional `+` followed by one or more digits whose value fits in `u32`, and returns that value; it fails with `Empty` exactly on the empty string; with `InvalidDigit` exactly on a lone `+`, or when a non-digit is met before overflow; and with `PosOverflow` when the number grows too large first |
| Decimal.Show | dev/native/src/lib.rs:16 | `{}` on an integer yields digits only, with no leading zero, and they denote the integer |
| Decimal.ParseShow | dev/native/src/lib.rs:14-26 | parsing the printed form of any `u32` gives it back |
| Decimal.ShowValue | dev/native/src/lib.rs:14-26 | printing the value of canonical digit text gives the text back |
| Decimal.CommaRejected | dev/native/src/lib.rs:26 | a text containing a comma never parses as a `u32` |
| Native.FindComma | dev/native/src/lib.rs:23-25 | no index iff the text has no comma; otherwise the index of a comma with no comma before it |
| Native.ParseResolution | dev/native/src/lib.rs:20-27 | no comma is the format error; with the first comma at i, success iff both the text before i and the text after it are `u32` text, the result then holding their values; a bad width fails with the width's own `u32` parse error, and a good width with a bad height fails with the height's |
| Native.ParseHalves | dev/native/src/lib.rs:26 | success iff both halves are `u32` text, with their values; a bad width fails with the width's own parse error, and a good width with a bad height fails with the height's |
| Native.Display | dev/native/src/lib.rs:14-17 | the printed resolution has one comma, right after the width's digits, and digits everywhere else |
| Native.TwoCommasRejected | dev/native/src/lib.rs:23-26 | a text with two commas never parses |
| Native.ParseDisplay | dev/native/src/lib.rs:14-27 | parsing the printed form of any resolution gives it back |
| Native.DisplayParse | dev/native/src/lib.rs:14-27 | printing a parsed resolution gives back the input when both halves were canonical |
| Native.ArgsFromFlags | dev/native/src/lib.rs:29-48 | a given resolution flag is accepted iff it parses; the arguments then hold the parsed resolution, and a rejected flag carries the parser's own error; without the flag the resolution is the default 3456 by 2234, for any side; the side is the given one, else Left |
| Native.DefaultArgs | dev/native/src/lib.rs:50-57 | side Left, resolution 3456 by 2234 |
| Native.ClapDefaultsMatchDefault | dev/native/src/lib.rs:29-57 | with no flags, the derived parser (default value printed, then parsed) yields exactly `Args::default()`, side Left with resolution 3456 by 2234 |
| Native.WindowX | dev/native/src/lib.rs:69-72 | the left side puts the window at x = 0; the right side at the given scaled width |
| Desync.New | src/main.rs:290-296 | a fresh logger has both counters 0 and satisfies `since_reset <= total` |
| Desync.Increment | src/main.rs:297-300 | both counters grow by exactly one, and the invariant is kept |
| Desync.Classify | src/main.rs:323-334 | Disconnected and NetworkInterrupted request an exit, DesyncDetected is counted, and nothing else is either |
| Desync.ResetStep | src/main.rs:309-317 | a report happens iff the timer is due and `since_reset > 0`; it carries the counters before clearing and zeroes `since_reset` only; otherwise the logger is unchanged; `total` never changes here |
| Desync.Dispatch | src/main.rs:322-335 | draining a queue adds the number of desync events to both counters and sends one exit request per disconnect or interruption |
| Desync.HandleGgrsEvents | src/main.rs:303-339 | over one frame `total` grows by exactly the desyncs queued in a peer-to-peer session (none for other sessions), `since_reset` is the possibly cleared value plus those desyncs, and the invariant is kept; the report line is written iff the timer is due and `since_reset > 0`, and it carries the counters from before clearing |
| Desync.ExitIffDisconnect | src/main.rs:320-338 | an exit is requested iff the session is peer-to-peer and its queue holds a Disconnected or NetworkInterrupted event |
| Desync.DispatchAppend | src/main.rs:322-335 | draining a queue in two batches leaves the same counters and exit count as draining it at once |
| Desync.RunCountsEveryDesync | src/main.rs:282-339 | over any sequence of frames the invariant holds and `total` grows by exactly the desyncs seen |
| Desync.RunFromNew | src/main.rs:290-339 | from `LogDesync::new`, `total` always equals the number of desyncs seen so far |
| Matchmaking.AssignHandles | src/main.rs:266-270 | the i-th listed player is registered with handle i, so the handles are distinct |
| Matchmaking.WaitForPlayers | src/main.rs:244-280 | without the channel or with fewer than 2 players nothing changes and no session starts; otherwise a 2-player, delay-2, interval-1 session gets every player in order, the channel is taken and the state becomes InGame |

## Left out

- The session is configured with 2 players, input delay 2 and a desync check every frame (src/main.rs:261-264), and the rollback and checksum component registrations (src/main.rs:33-48) configure the library. The three session settings are modelled in `Matchmaking.WaitForPlayers`; the component registrations are not.
- The rollback engine: session building, input buffers, prediction, snapshots and checksum comparison belong to `ggrs`/`bevy_ggrs`, which are not part of this model.
- `checksum_transform` in src/components.rs: it hashes `f32` bit patterns with a foreign hasher and asserts finiteness. Note that it deliberately leaves the transform's scale out of the hash.
- Floating-point game logic: `rotate_players`, `fire_projectile`, `move_projectile`, and the `normalize_or_zero` step of `_direction`. `Input.RawDirection` stops before normalisation.
- Window sizing: the division of the resolution by 2.5 in `f32` and Side::Right's `width as i32`. `Native.WindowX` takes that scaled width as a parameter.
- Networking and Bevy glue: the matchbox socket (`start_matchbox_socket`, `update_peers`), entity spawning, camera setup, collision logging, `src/arch/*`, `dev/niceties` (an Escape-key exit) and `src/args.rs` (a struct with no logic).
- Desync.Increment: the counters are unbounded. In the source `total += 1` overflows at `usize::MAX`: 2^32 - 1 on the wasm32 build, 2^64 - 1 on 64-bit targets. A debug build panics there and a release build wraps; neither is modelled.
- Desync.HandleGgrsEvents: the Bevy timer (10-second repeating, ticked after the check) enters only as the boolean `timerDue`. Log lines other than the desync report are not modelled. Events carry no payload because the handler matches them with `{ .. }`. The remaining `ggrs` event variants are all `OtherEvent`.
- Matchmaking.WaitForPlayers: the model stops at what is handed to the session builder. What `ggrs` does with more than two registered players, and the `expect` panics if adding a player or starting the session fails, are library behaviour and are not modelled.
- Native.ArgsFromFlags: clap's own reading of `--side` values is not modelled; the side arrives already parsed. Parse failures are a small error datatype instead of boxed error messages.
- Native.ParseResolution: strings are sequences of characters rather than UTF-8 bytes. The split is the same because `,` is a single byte, and a non-ASCII character is rejected as a non-digit either way.
