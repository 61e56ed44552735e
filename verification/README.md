# Wake-on-LAN power-button agent — a Dafny model

The agent is a microcontroller wired to the power button of a computer. It listens for
Wake-on-LAN "Magic Packets" on UDP port 9. When the computer's power-state pin reads off, it
"presses" the button: it drives a transistor (on the Raspberry Pi Pico W) or a relay (on the
ESP32) high, holds it, and releases it. Three LEDs report what the agent is doing: green while
pressing, blue for Wi-Fi, red for errors. The repository ships three variants:

- `rpi_pico_w/code_v2_async.py` (CircuitPython) adds several things:
  - it reads its configuration from `settings.ini`, starting from fixed defaults;
  - it hex-decodes the target MAC from that configuration;
  - it chooses between static addressing and DHCP;
  - it counts failed Wi-Fi connections and reboots the board at a threshold;
  - it runs an asynchronous Wi-Fi supervisor beside the listener.
- `code.py` (CircuitPython) is the first version. It has a fixed all-zero target MAC and
  checks Wi-Fi whenever the socket times out.
- `esp32_dev_module/sketch_feb15a/esp32-WoL-Telnet.c` (Arduino) differs in four ways:
  - its Wi-Fi watchdog restarts the board after ten consecutive disconnected checks;
  - its Wake-on-LAN check compares only bytes 6..11 of a packet with the MAC;
  - it has a Telnet console with a login and a command prompt;
  - through the prompt, an operator can switch the computer on or off.

The model works as follows:

- Every pin write and delay is recorded as an event in the `trace` of a `Board` object.
- Inputs from the outside world are parameters. These are: the received datagram, whether the
  radio is connected, whether a connection attempt succeeds, the device-state pin, and the
  Telnet input.
- The state the programs keep in globals becomes fields of classes:
  - `WifiSupervisor.failedAttempts` holds the Pico counter;
  - `WifiMonitor.reconnectAttempts` holds the ESP32 counter;
  - `TelnetSession.authenticated` and `TelnetSession.inTelnetPrompt` hold the Telnet session.
- Each state-changing method is tied by its postcondition to a pure function. The properties
  are proved as lemmas about that function.

The files, one module each:

| file | module | models |
|---|---|---|
| `common.dfy` | `Common` | `Option`, the `byte` type, `Min` |
| `text.dfy` | `Text` | CircuitPython `str.strip`, Arduino `String.trim`, `"=" in line` and `str.split("=", 1)` |
| `magic_packet.dfy` | `MagicPacket` | `is_wol_magic_packet` (both Pico programs) |
| `power.dfy` | `Power` | pin traces, `press_power_button`/`power_button`, `blink_led`/`blinkLED` |
| `listener.dfy` | `WolListener` | the receive-and-dispatch step of both Pico listeners |
| `settings.dfy` | `Settings` | `read_settings`, `TARGET_MAC` decoding, `configure_wifi` |
| `pico_async.dfy` | `PicoAsync` | `manage_wifi_connection`, `manage_wifi_connection_async` |
| `pico_basic.dfy` | `PicoBasic` | `verify_and_reconnect_wifi` and the listen loop of `code.py` |
| `esp32.dfy` | `Esp32` | `checkWiFiConnection`, `checkWakeOnLan`, `handleTelnet`, `handleTelnetPrompt` |

## Model

| member | source | states |
|---|---|---|
| Text.TrimStart | rpi_pico_w/code_v2_async.py:48 | the result is no longer than the input and does not start with whitespace |
| Text.TrimEnd | rpi_pico_w/code_v2_async.py:48 | the result is no longer than the input and does not end with whitespace |
| Text.Strip | rpi_pico_w/code_v2_async.py:48 | `line.strip()`: the result is no longer than the input, and neither its first nor its last character is whitespace |
| Text.TrimStartIsSuffix | rpi_pico_w/code_v2_async.py:48 | leading-whitespace removal keeps a suffix of the input |
| Text.TrimEndIsPrefix | rpi_pico_w/code_v2_async.py:48 | trailing-whitespace removal keeps a prefix of the input |
| Text.TrimStartDropsOnlyWhitespace | rpi_pico_w/code_v2_async.py:48 | every character dropped at the front is whitespace |
| Text.TrimEndDropsOnlyWhitespace | rpi_pico_w/code_v2_async.py:48 | every character dropped at the back is whitespace |
| Text.StripKeepsCharsOf | esp32_dev_module/sketch_feb15a/esp32-WoL-Telnet.c:157 | `command.trim()` keeps only characters of the original line |
| Text.StripUnpadded | rpi_pico_w/code_v2_async.py:54-55 | stripping a string with no whitespace at either end returns it unchanged |
| Text.StripIdempotent | rpi_pico_w/code_v2_async.py:54-55 | stripping twice is the same as stripping once |
| Text.IndexOf | rpi_pico_w/code_v2_async.py:52-53 | `"=" in line` holds iff an index is found; the found index holds the character and no earlier index does, so it is the first one |
| MagicPacket.Repeat | rpi_pico_w/code_v2_async.py:134-136 | the target repeated n times has n times its length |
| MagicPacket.RepeatAt | rpi_pico_w/code_v2_async.py:134-136 | byte j of copy w of a repeated 6-byte target is byte j of the target |
| MagicPacket.MagicPacketFor | rpi_pico_w/code_v2_async.py:129 | the reference packet has 6 + 16 × \|target\| bytes and starts with six 0xFF |
| MagicPacket.WindowsMatchFrom | rpi_pico_w/code_v2_async.py:134-137 | the reference definition of the window loop from copy i on (no contract of its own); `WindowsMatchFromIff` proves what it accepts |
| MagicPacket.IsWolMagicPacket | rpi_pico_w/code_v2_async.py:128-137 | the reference definition of `is_wol_magic_packet` (no contract of its own); `IsWolMagicPacketIff`, `WrongLengthRejected`, `AcceptedPacketBytes`, `SingleByteChangeRejected` and `ExampleTargetAABBCCDDEEFF` prove its properties |
| MagicPacket.WindowsMatchFromIff | rpi_pico_w/code_v2_async.py:134-137 | the window loop from copy i succeeds iff the rest of the packet is the target repeated 16 − i times |
| MagicPacket.IsWolMagicPacketIff | rpi_pico_w/code_v2_async.py:128-137 | a packet is accepted iff the target has 6 bytes and the packet is exactly six 0xFF followed by 16 copies of the target |
| MagicPacket.WrongLengthRejected | code.py:55-56 | any packet whose length is not 102 is rejected |
| MagicPacket.AcceptedPacketBytes | code.py:57-62 | in an accepted packet, bytes 0..5 are 0xFF and byte 6 + 6w + j equals target byte j, for every copy w < 16 and j < 6 |
| MagicPacket.SingleByteChangeRejected | rpi_pico_w/code_v2_async.py:132-137 | changing any single byte of an accepted packet makes it rejected |
| MagicPacket.ExampleTargetAABBCCDDEEFF | code.py:57-62 | for target AA:BB:CC:DD:EE:FF the full packet is accepted; the same packet with the last byte of its second copy set to 00 is rejected, and so are its first 101 bytes |
| Power.PulseWrites | code.py:41-46 | a press writes the switch and the green LED high then low, and no other pin |
| Power.BlinkCycleWrites | code.py:34-38 | one blink iteration writes its pin high then low, and no other pin |
| Power.PulseTrace | code.py:41-46 | the reference trace of a button press (no contract of its own); `PulseWrites`, `PulseLeavesPinsLow` and `PulsePressesOnce` prove its properties, and `Board.PowerButton` is proved to produce it |
| Power.BlinkCycle | code.py:34-38 | the reference trace of one blink iteration (no contract of its own); `BlinkCycleWrites` proves its properties |
| Power.BlinkTrace | rpi_pico_w/code_v2_async.py:108-113 | the reference trace of `blink_led` (no contract of its own); `BlinkAlternates` and `BlinkTouchesOnlyItsPin` prove its properties, and `Board.BlinkLed` is proved to produce it |
| Power.PulseLeavesPinsLow | rpi_pico_w/code_v2_async.py:116-121 | after a press, whatever came before, the switch and the green LED are low, and the red and blue LEDs are untouched |
| Power.PulsePressesOnce | rpi_pico_w/code_v2_async.py:116-121 | a press drives the switch high exactly once |
| Power.BlinkAlternates | rpi_pico_w/code_v2_async.py:108-113 | `blink_led(pin, times)` writes True, False, True, … exactly 2·times levels to its pin and leaves it False; `times <= 0` writes nothing |
| Power.BlinkTouchesOnlyItsPin | esp32_dev_module/sketch_feb15a/esp32-WoL-Telnet.c:36-43 | `blinkLED` writes no pin but its own |
| Power.NoSwitchNoPresses | code.py:41-46 | a trace that never writes the switch contains no press |
| Power.WritesToAppend | esp32_dev_module/sketch_feb15a/esp32-WoL-Telnet.c:36-43 | the writes to a pin over two routines run one after the other are the writes of the first, then those of the second |
| Power.Board.SetPin | code.py:42-45 | one pin write is appended to the trace |
| Power.Board.Delay | code.py:44 | one delay is appended to the trace |
| Power.Board.PowerButton | esp32_dev_module/sketch_feb15a/esp32-WoL-Telnet.c:49-55 | `power_button(ms)` appends exactly the press trace, and leaves the relay and the green LED low |
| Power.Board.PressPowerButton | code.py:41-46 | `press_power_button()` appends the press trace with a 500 ms hold, and leaves the transistor and the green LED low |
| Power.Board.BlinkLed | rpi_pico_w/code_v2_async.py:108-113 | the blink loop appends exactly `times` blink iterations |
| WolListener.Received | rpi_pico_w/code_v2_async.py:177-184 | `buffer[:num_bytes]` is a prefix of the datagram of at most 1024 bytes: the whole datagram when it fits, exactly 1024 bytes when it does not |
| WolListener.Response | rpi_pico_w/code_v2_async.py:183-192 | the reference trace of the dispatch of one datagram (no contract of its own); `ResponsePressesOnlyForMagicWhileOff` and `TruncationHarmless` prove its properties, and `HandleDatagram` is proved to produce it |
| WolListener.TruncationHarmless | code.py:108-112 | cutting a datagram to the 1024-byte buffer never changes whether it is accepted |
| WolListener.ResponsePressesOnlyForMagicWhileOff | rpi_pico_w/code_v2_async.py:183-192 | each datagram presses at most once; it presses exactly once iff it is the magic packet for the target and the device is off; while the device is on no pin is written; after a press the switch is low |
| WolListener.HandleDatagram | code.py:108-118 | the dispatch branch appends exactly the response for this datagram |
| Settings.FindKey | rpi_pico_w/code_v2_async.py:57 | the key found is in the list and has the name; no key is found only when no listed key has the name |
| Settings.LookupKey | rpi_pico_w/code_v2_async.py:57 | `key in settings`: a found key has exactly this name; nothing is found only when no recognised key has it |
| Settings.LookupKeyName | rpi_pico_w/code_v2_async.py:31-41 | every recognised key is found under its own name |
| Settings.DefaultValue | rpi_pico_w/code_v2_async.py:31-41 | the default value of each key, from which the default dictionary `Defaults` is built (no contract of its own); `ReadSettings`, `UnassignedKeyKept` and `DefaultTargetMacIsZero` state what follows from it |
| Settings.ParseLine | rpi_pico_w/code_v2_async.py:48-55 | the reference definition of what one line assigns (no contract of its own); `SkippedLinesChangeNothing`, `SplitAtFirstEquals`, `SplitLineAt` and `JoinedUnpadded` prove its properties |
| Settings.SplitLine | rpi_pico_w/code_v2_async.py:50-55 | the reference definition of the comment check and the split at the first `=` (no contract of its own); `SplitLineAt` and `SplitAtFirstEquals` prove its properties |
| Settings.ApplyLine | rpi_pico_w/code_v2_async.py:47-58 | the reference definition of one turn of the loop over the lines (no contract of its own); `ApplyLineAt`, `UnknownKeyIgnored` and `SkippedLinesChangeNothing` prove its properties |
| Settings.Assign | rpi_pico_w/code_v2_async.py:57-58 | the update keeps the key set; only the key the line names gets the line's value, and every other key keeps its value |
| Settings.ApplyLineAt | rpi_pico_w/code_v2_async.py:47-58 | one line keeps the key set, and a key takes the line's value iff the line assigns that key |
| Settings.AssignAll | rpi_pico_w/code_v2_async.py:47-58 | the fold of all updates keeps the key set |
| Settings.ApplyLines | rpi_pico_w/code_v2_async.py:47-58 | the loop over the lines keeps the key set |
| Settings.ApplyLinesSnoc | rpi_pico_w/code_v2_async.py:47 | folding one more line is applying it to the fold of the lines before it |
| Settings.ReadSettings | rpi_pico_w/code_v2_async.py:29-63 | the result has exactly the default keys; it is the defaults when the file cannot be opened, and otherwise the fold of the file's lines over the defaults |
| Settings.SkippedLinesChangeNothing | rpi_pico_w/code_v2_async.py:48-52 | blank lines, `#` lines and lines without `=` leave the settings unchanged |
| Settings.SplitAtFirstEquals | rpi_pico_w/code_v2_async.py:53-55 | a line is split at its first `=`, so `k = a=b` assigns `a=b`, and both sides are stripped |
| Settings.JoinedUnpadded | rpi_pico_w/code_v2_async.py:48-50 | an unpadded key and value joined by `=` make a non-blank, non-comment line that stripping leaves alone |
| Settings.SplitLineAt | rpi_pico_w/code_v2_async.py:53-55 | a non-comment line whose first `=` is at i assigns the stripped text before i to the stripped text after it |
| Settings.EqualsFoundAt | rpi_pico_w/code_v2_async.py:53 | the first `=` of `k=v` is the one after `k` when `k` has none |
| Settings.LastAssignmentWins | rpi_pico_w/code_v2_async.py:47-58 | the last line that assigns a recognised key decides its value |
| Settings.LastNamedWins | rpi_pico_w/code_v2_async.py:57-58 | over parsed lines, the value of the last entry that names the key is the one kept |
| Settings.UnassignedKeyKept | rpi_pico_w/code_v2_async.py:43-58 | a key that no line assigns keeps its starting value |
| Settings.NeverNamedKept | rpi_pico_w/code_v2_async.py:57-58 | over parsed lines, a key no entry names keeps its value |
| Settings.UnknownKeyIgnored | rpi_pico_w/code_v2_async.py:57 | a line whose key is not recognised changes nothing |
| Settings.RemoveColons | rpi_pico_w/code_v2_async.py:69 | `replace(":", "")` leaves no colon, never lengthens, and changes nothing when there was no colon |
| Settings.HexDigitValue | rpi_pico_w/code_v2_async.py:69 | a hex digit of either case has a value below 16 (`HexChar` pins the value of every digit, `0`–`9`, `a`–`f` and `A`–`F`) |
| Settings.FromHex | rpi_pico_w/code_v2_async.py:69 | decoding succeeds iff the text has an even number of characters, all hex digits of either case, and then yields half as many bytes |
| Settings.FromHexByte | rpi_pico_w/code_v2_async.py:69 | byte k of the decoded text is 16 × the value of digit 2k plus the value of digit 2k + 1, whatever the case of the digits |
| Settings.TargetMac | rpi_pico_w/code_v2_async.py:69 | the reference definition of the TARGET_MAC conversion (no contract of its own); `TargetMacRoundTrip` and `DefaultTargetMacIsZero` prove its properties |
| Settings.HexChar | rpi_pico_w/code_v2_async.py:69 | the digit rendered for n < 16, in upper or lower case, is a hex digit whose value is n |
| Settings.ToHex | rpi_pico_w/code_v2_async.py:69 | two characters per byte, in either case |
| Settings.FromHexToHex | rpi_pico_w/code_v2_async.py:69 | decoding the upper- or lower-case hex form of any bytes gives back the bytes |
| Settings.NoColonInHex | rpi_pico_w/code_v2_async.py:69 | the hex form, in either case, has no colon |
| Settings.RemoveColonsColonHex | rpi_pico_w/code_v2_async.py:69 | removing the colons of `aa:bb:…` or `AA:BB:…` leaves the plain hex form in the same case |
| Settings.RemoveColonsAppend | rpi_pico_w/code_v2_async.py:69 | colon removal distributes over concatenation |
| Settings.ToHexAppend | rpi_pico_w/code_v2_async.py:69 | hex encoding, in either case, distributes over concatenation |
| Settings.TargetMacRoundTrip | rpi_pico_w/code_v2_async.py:69 | TARGET_MAC written with or without colons, in upper or lower case, decodes to its bytes |
| Settings.DefaultTargetMacIsZero | rpi_pico_w/code_v2_async.py:32 | the default `00:00:00:00:00:00` decodes to six zero bytes |
| Settings.ConfigureWifi | rpi_pico_w/code_v2_async.py:89-105 | static addressing is chosen iff STATIC_IP, STATIC_SUBNET_MASK and STATIC_GATEWAY are all non-empty and applying them succeeds, otherwise DHCP; it uses exactly the configured address, mask and gateway, and a DNS server iff STATIC_DNS is non-empty, which is then that server |
| Settings.DhcpUnlessStaticAddressGiven | rpi_pico_w/code_v2_async.py:90 | a settings file that never assigns STATIC_IP, STATIC_SUBNET_MASK or STATIC_GATEWAY leads to DHCP |
| PicoAsync.Manage | rpi_pico_w/code_v2_async.py:140-166 | the reference definition of one `manage_wifi_connection` call: outcome, new counter and pin trace (no contract of its own); `CounterRules`, `ConnectedIffLinkUp`, `CounterBelowThreshold` and `ManageLeavesLedsOff` prove its properties, and `WifiSupervisor.ManageWifiConnection` is proved to follow it |
| PicoAsync.CounterRules | rpi_pico_w/code_v2_async.py:143-166 | while connected the counter is unchanged; a successful connect clears it; a failed one adds exactly one and reboots iff the new count is ≥ WIFI_FAILED_ATTEMPTS |
| PicoAsync.ConnectedIffLinkUp | rpi_pico_w/code_v2_async.py:143-166 | the function returns True iff the link is up or comes up, and reboots only after a failed attempt |
| PicoAsync.CounterBelowThreshold | rpi_pico_w/code_v2_async.py:153-162 | from a counter that is zero or below the threshold, a call that does not reboot keeps it so, and a reboot happens at exactly max(threshold, 1) |
| PicoAsync.ManageLeavesLedsOff | rpi_pico_w/code_v2_async.py:152-165 | a call never drives the switch or the green LED, and leaves the LED it blinked off |
| PicoAsync.FailuresUntilReboot | rpi_pico_w/code_v2_async.py:155-163 | consecutive failed connects from any counter fail quietly until the one that reaches the threshold, which reboots |
| PicoAsync.RunFailingStep | rpi_pico_w/code_v2_async.py:155-163 | a run of failures is one failed call followed by the rest of the run |
| PicoAsync.RebootOnFailureNumberThreshold | rpi_pico_w/code_v2_async.py:86 | from the initial counter 0, a board that never connects reboots on failed attempt number max(WIFI_FAILED_ATTEMPTS, 1) and not before |
| PicoAsync.SuperviseTrace | rpi_pico_w/code_v2_async.py:205-223 | the reference trace of one round of the async supervisor (no contract of its own); `SuperviseEndsBlueOff` proves its properties |
| PicoAsync.SuperviseEndsBlueOff | rpi_pico_w/code_v2_async.py:203-223 | every round of the async supervisor leaves the blue LED off and never drives the switch |
| PicoAsync.WifiSupervisor.constructor | rpi_pico_w/code_v2_async.py:83-86 | the counter starts at 0 |
| PicoAsync.WifiSupervisor.ManageWifiConnection | rpi_pico_w/code_v2_async.py:140-166 | the new counter, the outcome and the pins written are those of `Manage`; a call that does not reboot keeps the counter invariant |
| PicoAsync.WifiSupervisor.ConnectFailed | rpi_pico_w/code_v2_async.py:155-163 | the failure branch adds one to the counter, blinks red twice, and reboots iff the counter reaches the threshold, after ten more red blinks |
| PicoAsync.WifiSupervisor.SuperviseAsyncRound | rpi_pico_w/code_v2_async.py:205-223 | a round of the async supervisor writes its blinks and leaves the failure counter unchanged |
| PicoBasic.Reconnected | code.py:65-79 | the reference definition of the answer of `verify_and_reconnect_wifi` (no contract of its own); `ReconnectResultShownByLeds` proves when it is False |
| PicoBasic.ReconnectTrace | code.py:65-79 | the reference trace of `verify_and_reconnect_wifi` (no contract of its own); `ReconnectResultShownByLeds` proves which LEDs it blinks |
| PicoBasic.ReconnectResultShownByLeds | code.py:65-79 | the function answers False iff a reconnect was attempted and raised; True blinks only blue twice, False only red twice, and the switch is never driven |
| PicoBasic.VerifyAndReconnectWifi | code.py:65-79 | the answer and the pins written are those of the reconnect specification |
| PicoBasic.ListenTrace | code.py:106-122 | the reference trace of one turn of the receive loop (no contract of its own); `ListenPressesOnlyForMagicWhileOff` proves its properties |
| PicoBasic.ListenPressesOnlyForMagicWhileOff | code.py:106-122 | a turn of the loop presses at most once, exactly once iff the datagram is the magic packet for 00:00:00:00:00:00 and the device is off; a timeout never presses |
| PicoBasic.ListenStep | code.py:106-122 | a datagram goes to the dispatch with the fixed target; a timeout goes to the Wi-Fi check |
| Esp32.CheckWifi | esp32_dev_module/sketch_feb15a/esp32-WoL-Telnet.c:57-73 | the reference definition of one `checkWiFiConnection` call: new counter, restart and pin trace (no contract of its own); `CheckWifiCounter`, `CheckWifiLeds`, `RestartAfterDisconnects` and `RestartOnTenthDisconnect` prove its properties |
| Esp32.CheckWifiCounter | esp32_dev_module/sketch_feb15a/esp32-WoL-Telnet.c:57-73 | a connected check clears the counter and never restarts; a disconnected one adds exactly one and restarts iff the counter reaches 10 |
| Esp32.CheckWifiLeds | esp32_dev_module/sketch_feb15a/esp32-WoL-Telnet.c:60-70 | connected: four blue writes; disconnected: twenty blue writes, plus twenty red ones before a restart; blue is left off and the relay is never driven |
| Esp32.ChecksDisconnectedStep | esp32_dev_module/sketch_feb15a/esp32-WoL-Telnet.c:58-68 | a run of disconnected checks is one check followed by the rest |
| Esp32.RestartAfterDisconnects | esp32_dev_module/sketch_feb15a/esp32-WoL-Telnet.c:63-68 | from a counter below 10, consecutive disconnected checks restart on the (10 − counter)-th and on none before it |
| Esp32.RestartOnTenthDisconnect | esp32_dev_module/sketch_feb15a/esp32-WoL-Telnet.c:30 | from boot, `ESP.restart` comes on the 10th consecutive disconnected check, never earlier |
| Esp32.ConnectedCheckForgets | esp32_dev_module/sketch_feb15a/esp32-WoL-Telnet.c:69-71 | after a connected check, what follows behaves as from boot |
| Esp32.WifiMonitor.constructor | esp32_dev_module/sketch_feb15a/esp32-WoL-Telnet.c:30 | the counter starts at 0 |
| Esp32.WifiMonitor.CheckWiFiConnection | esp32_dev_module/sketch_feb15a/esp32-WoL-Telnet.c:57-73 | the new counter, the restart and the pins written are those of `CheckWifi` |
| Esp32.EspMatch | esp32_dev_module/sketch_feb15a/esp32-WoL-Telnet.c:83-89 | the reference definition of the byte comparison (no contract of its own); `MacMatches`, `MagicPacketMatches` and `ShortPayloadMatches` state what it accepts |
| Esp32.MacMatches | esp32_dev_module/sketch_feb15a/esp32-WoL-Telnet.c:83-89 | the loop's `match` is true iff buffer bytes 6..11 equal the target MAC |
| Esp32.MagicPacketMatches | esp32_dev_module/sketch_feb15a/esp32-WoL-Telnet.c:83-89 | every packet the Pico programs accept for this MAC also matches here |
| Esp32.ShortPayloadMatches | esp32_dev_module/sketch_feb15a/esp32-WoL-Telnet.c:83-89 | a 12-byte payload with no 0xFF prefix matches, although it is no magic packet |
| Esp32.EspReceived | esp32_dev_module/sketch_feb15a/esp32-WoL-Telnet.c:80-81 | the buffer is a prefix of the payload of at most 102 bytes: the whole payload when it fits, exactly 102 bytes when it does not |
| Esp32.WakeTrace | esp32_dev_module/sketch_feb15a/esp32-WoL-Telnet.c:77-100 | the reference trace of one `checkWakeOnLan` (no contract of its own); `WakePressesOnMatchWhileOff` proves its properties, and `CheckWakeOnLan` is proved to produce it |
| Esp32.WakePressesOnMatchWhileOff | esp32_dev_module/sketch_feb15a/esp32-WoL-Telnet.c:77-100 | a check presses at most once, exactly once iff a packet arrived whose bytes 6..11 are the MAC while the device is off; the relay is then left low |
| Esp32.CheckWakeOnLan | esp32_dev_module/sketch_feb15a/esp32-WoL-Telnet.c:77-100 | the check appends exactly the wake response for this payload |
| Esp32.PromptStep | esp32_dev_module/sketch_feb15a/esp32-WoL-Telnet.c:102-134 | the reference definition of `handleTelnetPrompt` on one line (no contract of its own); `PromptCommands` proves its properties |
| Esp32.TelnetStep | esp32_dev_module/sketch_feb15a/esp32-WoL-Telnet.c:136-170 | the reference definition of `handleTelnet` on one byte and line (no contract of its own); `CtrlDLogsOut`, `CtrlZEntersPromptWithoutLogin`, `LoginAndForward`, `SessionGuards`, `PromptPulsesWithoutLogin` and `FirstByteIsNotPartOfCommand` prove its properties |
| Esp32.CtrlDLogsOut | esp32_dev_module/sketch_feb15a/esp32-WoL-Telnet.c:140-144 | byte 4 logs out and disconnects, and leaves the prompt flag as it was |
| Esp32.CtrlZEntersPromptWithoutLogin | esp32_dev_module/sketch_feb15a/esp32-WoL-Telnet.c:145-148 | byte 26 enters the prompt without looking at the login |
| Esp32.PromptCommands | esp32_dev_module/sketch_feb15a/esp32-WoL-Telnet.c:102-134 | in the prompt, the button is pulsed iff `poweron` arrives while off, or `poweroff` / `poweroff -f` while on; the pulse is 5000 ms only for `-f`; only `exit` leaves the prompt; the login is unchanged |
| Esp32.LoginAndForward | esp32_dev_module/sketch_feb15a/esp32-WoL-Telnet.c:156-169 | outside the prompt, a session is logged in afterwards iff it was already or the line is exactly `admin/passw0rd`; a line is forwarded iff the session is logged in, and then it is the trimmed line |
| Esp32.SessionGuards | esp32_dev_module/sketch_feb15a/esp32-WoL-Telnet.c:136-170 | forwarding needs a login outside the prompt; a pulse comes only from the prompt; only the password logs a session in |
| Esp32.PromptPulsesWithoutLogin | esp32_dev_module/sketch_feb15a/esp32-WoL-Telnet.c:145-152 | a client that never logged in can send Ctrl-Z and then `poweron` and have the device switched on |
| Esp32.FirstByteIsNotPartOfCommand | esp32_dev_module/sketch_feb15a/esp32-WoL-Telnet.c:138 | the byte taken by `read()` is not part of the command: `poweron` typed in the prompt arrives as `oweron` and is not recognised |
| Esp32.TelnetSession.constructor | esp32_dev_module/sketch_feb15a/esp32-WoL-Telnet.c:31-32 | the session starts logged out and outside the prompt |
| Esp32.TelnetSession.HandleTelnetPrompt | esp32_dev_module/sketch_feb15a/esp32-WoL-Telnet.c:102-134 | the new flags and the action are those of `PromptStep`; the pins receive exactly the pulse of the action |
| Esp32.TelnetSession.HandleTelnet | esp32_dev_module/sketch_feb15a/esp32-WoL-Telnet.c:136-170 | the new flags and the action are those of `TelnetStep`; the pins receive exactly the pulse of the action |

## Left out

- Sockets, Wi-Fi calls and the Telnet stream are not modelled as calls. Their results are parameters: the datagram (or none), connected or not, whether the connect attempt succeeded, the device-state pin, and the Telnet byte and line.
- Time is not modelled. Delays appear in the trace only as `Sleep(ms)` events.
- The asyncio event loop, task creation, and the ESP32 TaskScheduler cadence are not modelled.
- The top-level `while True` retry loops are not modelled, and neither is the ESP32 set-up busy-wait.
- `code.py`'s `connect_wifi` is not modelled. Its branches are those of `verify_and_reconnect_wifi` when the radio is not yet connected.
- `microcontroller.reset()` and `ESP.restart()` are modelled as a terminal `Reboot` outcome or restart flag, not as calls.
- Printing and logging are left out.
- Pin direction set-up is left out, and so are the ESP32's initial LOW writes.
- Settings.FromHex: `bytes.fromhex` is modelled for a run of hex digits of either case. Any other character, whitespace included, makes the decoding fail.
- Settings.ConfigureWifi: parsing and applying the IPv4 addresses is the parameter `staticAccepted`. When it is false (Python raises), the radio stays on DHCP.
- The integer parsing of WIFI_FREQ_CHECK and WIFI_FAILED_ATTEMPTS (`int()`) is left out. The threshold is an `int` parameter of `WifiSupervisor`, and the socket timeout is not modelled.
- A read error part-way through `settings.ini` is not modelled separately. Because the dictionary is updated in place, it equals reading the lines that came before the error.
- Text.Strip: its own contract states only the length bound and that neither end is whitespace. That nothing but leading and trailing whitespace is removed is stated by `TrimStartDropsOnlyWhitespace`, `TrimEndDropsOnlyWhitespace` and `StripKeepsCharsOf`.
- Text.Strip removes the six ASCII whitespace characters (space, tab, line feed, carriage return, vertical tab, form feed): what CircuitPython's argument-less `str.strip()` removes and what C's `isspace` accepts in the "C" locale for Arduino `String.trim`. Non-ASCII whitespace is not modelled.
- The ESP32 UART echo loop (`externalDevice` to Telnet) is left out. So is the case where `TelnetStream.available()` is false, which changes no state.
- ESP32 payloads shorter than 12 bytes are excluded by a precondition. There, bytes 6..11 of the receive buffer would be uninitialised memory.
- `int` overflow of the ESP32 `wifiReconnectAttempts` cannot occur, because the counter never passes 10.
