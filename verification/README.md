# Verification of the codo Go SDK

A model of the stateful and arithmetical parts of the SDK, with proofs that Dafny 4.11 checks:
`dafny verify dfyconfig.toml`.

## What is modelled

- `Heartbeat.dfy`, `HeartbeatLoop.dfy`, `EtcdRegistry.dfy`: service registration in etcd. A heartbeat
  is a goroutine with a program counter, the current lease id, its keep-alive channels, an attempt in progress and the
  figures of the current outage; the registry is any number of heartbeats over one store whose
  entries are bound to leases. Leases expire, calls fail (a failed Put may still have been applied),
  timers run out and contexts are cancelled at any moment. `Register`, `Deregister` and
  `registerWithKV` are methods on an object as well as steps, and `HeartbeatLoop` is the body of
  `heartBeat` with its two loops, proved to follow the steps.
- `EtcdWatcher.dfy`: the watch-then-read protocol of `Next`, against a store changed by others at
  any moment; its own methods on an object.
- `FormCodec.dfy`, `XSign.dfy`: `url.Values` with printer and parser
  (application/x-www-form-urlencoded, section 5 of the WHATWG URL Standard; percent-encoding,
  sections 2.1 and 2.3 of RFC 3986), the accumulating signer, and the client and server halves of
  the signature over mutable requests.
- `ConfigTree.dfy`, `EnvOverlay.dfy`, `EnvPromises.dfy`, `EnvTexts.dfy`, `EnvStructs.dfy`: loading
  configuration from the environment. `EnvOverlay` is the walk over a finite type and a value tree,
  `EnvPromises` states what it means leaf by leaf, `EnvTexts` what names and texts mean in bytes and
  printed values, and `EnvStructs` is the code that writes structs on the heap in place, proved to do
  what the walk says.
- `SliceValue.dfy`, `FlagLayers.dfy`: list-valued flags, flag registration, the layers of `LoadConfig`.
- `LogLine.dfy`, `StdLogger.dfy`: the standard logger, one call as a method over pool, buffer and sink,
  and many goroutines as interleaved steps.
- `CasMemory.dfy`, `CasRedis.dfy`: compare-and-set in process and as a sequence of Redis commands.
- `RangeQuery.dfy`: start, end, step and limit of a range query in 64-bit Durations.
- `Xip.dfy`: intranet addresses against section 3 of RFC 1918.
- `Wrappers.dfy`, `Bytes.dfy`, `Strconv.dfy`, `GoTime.dfy`, `ConfigTypes.dfy`: options, Go strings as
  bytes with `strings.Split` and their order, the decimal parsers with bit sizes, Durations, scalar
  kinds.

Concurrent code is a transition system: a run is a list of states, each one enabled step after the
one before, and the main results hold of every run. Sequential code that changes state is a method
whose contract equates the new state with a specification function, and the laws are lemmas about
that function. Automatic induction is switched off on every lemma; each induction is written out.

Parameters, so results hold for all of them: MD5, how floating-point text is read and narrowed, how
a registry entry decodes, what YAML makes of a struct, how the flag packages set a scalar, the
clocks, the replies of etcd and Redis, the random index of a back-off, how much of a line a writer takes.

What is taken from the etcd client: granted lease ids are fresh and non-zero; `KeepAlive` returns a
closed channel when it returns an error; a channel receives nothing new once its context is
cancelled; a registration attempt has no effect once it was given up or its context is cancelled;
a watch that is open is told of every change under its prefix.

## Where the code and its promises differ

The model follows the code.

- `FlagLayers.EnvAlwaysOn`: the comment on `LoadConfig` lists flag over environment over YAML as if each
  were optional; the environment layer is always on, and pflag comes after flag.
- `EnvPromises.SliceDropped`: a slice behind a nil pointer to a struct is read, may fail the load, and
  is dropped when nothing but slices is set behind that pointer.
- `EnvPromises.ScalarDropped`: a scalar or slice behind a nil pointer of its own is set in a variable
  that nothing keeps, and a scalar still counts as set. `EnvPromises.FlatOverlay` says that these two
  are all.
- `EtcdRegistry.RegisterTwiceLeaks`, `EtcdRegistry.OverwriteLoses`: a second registration of an
  instance leaves the first heartbeat running, and a deregistered key can then come back.
- `CasRedis.OverlapBreaksExclusion`: the write is not inside MULTI, so WATCH does not protect it;
  `CasRedis.Serializable` gives a discipline on the calls under which they are atomic all the same.
- `CasRedis.LockLapses`: unlike the in-process store, a lock held for a minute is up for taking;
  `CasRedis.SequentialRefinement` says exactly when the two stores answer alike.
- `EtcdWatcher.FailedReadGoesStale`: after a failed read nothing is retried until the next change.
- `RangeQuery.StepUsable`: a range shorter than a second per sample emits a step of 0 seconds.

## Model

| member | source | states |
|---|---|---|
| `Heartbeat.StreamsKept` | adapter/kratos/discovery/etcd/registry.go:164-231 | every step of a heartbeat, whatever etcd answers, keeps at most one keep-alive channel that is open or has responses left (the newest), and ties `curLeaseID` and `kac` together at every program point |
| `Heartbeat.BoundedKept` | adapter/kratos/discovery/etcd/registry.go:172-214 | every step keeps attempts, timers and slept seconds of the current outage under the bound its retry counter allows, for any sign of `maxRetry` |
| `Heartbeat.BackOffBounded` | adapter/kratos/discovery/etcd/registry.go:207-208 | one back-off sleeps at most 2^retryCnt seconds whichever entry of `retreat` the random index picks, and only while retryCnt < maxRetry |
| `Heartbeat.BackOffIsDuration` | adapter/kratos/discovery/etcd/registry.go:207-208 | 2^k seconds fit a 64-bit Duration if and only if k < 34, so retry counts up to 34 never overflow |
| `Heartbeat.NoStreamReturns` | adapter/kratos/discovery/etcd/registry.go:210-213 | after an outage in which no attempt obtained a stream, the receive after the loop is the only possible step and it returns; the steady select is not reached |
| `Heartbeat.CancelledStepDescends` | adapter/kratos/discovery/etcd/registry.go:172-231 | with the context cancelled every step, of the goroutine or of etcd on its channels, uses up a rank |
| `Heartbeat.CancelledNotStuck` | adapter/kratos/discovery/etcd/registry.go:172-231 | and until it has returned a cancelled heartbeat can take a step that is no Put |
| `Heartbeat.NeverPuts` | adapter/kratos/discovery/etcd/registry.go:172-231 | a heartbeat that can put no more (retries used up, or none configured) never does, whatever etcd answers |
| `Heartbeat.TowardNearer` | adapter/kratos/discovery/etcd/registry.go:172-231 | one that can always has a step that brings the Put nearer |
| `HeartbeatLoop.Beating.RetryLoop` | adapter/kratos/discovery/etcd/registry.go:174-209 | the retry loop follows the steps, and the rounds decide its outcome: it returns from the heartbeat exactly when the first decisive round finds the context cancelled; it has a stream exactly when that round obtains one; `curLeaseID` is the lease of the last round that registered; attempts, time-outs and seconds slept are sums over the rounds before, within the limits of one outage |
| `HeartbeatLoop.Beating.Receive` | adapter/kratos/discovery/etcd/registry.go:210-226 | a receive from `kac` succeeds exactly when a response comes on an open channel; a closed one ends the heartbeat, except at the select with the context alive, where it clears `curLeaseID` |
| `HeartbeatLoop.Beating.HeartBeat` | adapter/kratos/discovery/etcd/registry.go:164-231 | the body follows the steps, and the turns decide whether it has returned, with what `curLeaseID` and at which point, for every script of outcomes |
| `HeartbeatLoop.ReturnsAtATurn` | adapter/kratos/discovery/etcd/registry.go:172-230 | it has returned exactly when some turn found it without a lease and gave it no confirmed stream, or ended it at the select |
| `HeartbeatLoop.AllTimeOut` | adapter/kratos/discovery/etcd/registry.go:176-209 | when every attempt times out there are exactly maxRetry attempts, none for a negative maxRetry, no sleep, no stream and no lease |
| `HeartbeatLoop.BackOffsDouble` | adapter/kratos/discovery/etcd/registry.go:207-208 | when KeepAlive fails in every round the listed back-offs are 1, 2, 4, ... seconds |
| `EtcdRegistry.Registry.RegisterWithKV` | adapter/kratos/discovery/etcd/registry.go:152-162 | the store after granting a lease and putting the entry, for each way either call can fail; id 0 exactly on failure |
| `EtcdRegistry.Registry.Register` | adapter/kratos/discovery/etcd/registry.go:86-106 | the new state is the Register step: a heartbeat started and its cancel function kept, in place of an older one for the same instance, only when the entry was put |
| `EtcdRegistry.Registry.Deregister` | adapter/kratos/discovery/etcd/registry.go:109-123 | the new state is the Deregister step: cancelled and forgotten first, entry deleted whatever was in the map |
| `EtcdRegistry.RegisterWrites` | adapter/kratos/discovery/etcd/registry.go:86-106 | in every run, after a successful Register the key holds exactly the caller's value under a lease that no entry, Put or heartbeat had, and the heartbeat started keeps key and value; after a failed one nothing but that entry may have been written; no other key changes |
| `EtcdRegistry.BeatWrites` | adapter/kratos/discovery/etcd/registry.go:186-201 | a heartbeat writes only by a Put that is applied: its own key, value and lease, nothing else |
| `EtcdRegistry.DeregisterWrites` | adapter/kratos/discovery/etcd/registry.go:109-123 | Deregister removes the key unless the deletion fails without effect, forgets the instance, and touches no other key or instance |
| `EtcdRegistry.OutageBounded` | adapter/kratos/discovery/etcd/registry.go:172-214 | in every run of any number of heartbeats, one outage makes at most maxRetry attempts, runs out at most maxRetry timers (3 s each) and sleeps at most 2^maxRetry - 1 s |
| `EtcdRegistry.SteadyRegistration` | adapter/kratos/discovery/etcd/registry.go:152-231 | in every run with one registration per key, a live heartbeat at its steady select has a non-zero lease, `kac` is the stream opened for exactly that lease and the only open one, the last Put of its key was bound to that lease, and the entry is stored unless the lease expired; timed-out attempts and their orphan leases make no difference |
| `EtcdRegistry.SteadyForCallers` | adapter/kratos/discovery/etcd/registry.go:86-231 | in every run in which each instance has a key of its own and is never registered twice without deregistering, a matter of the calls made alone, a live heartbeat at its steady select is that of an instance, its stream and the last Put are those of its lease, and the store holds under the instance's key, unless the lease expired, the value of its last successful Register |
| `EtcdRegistry.DeregistrationIsFinal` | adapter/kratos/discovery/etcd/registry.go:86-231 | let an instance register one key, which nobody else registers, and never twice without deregistering in between: in every run and every continuation after a deregistration in which nobody registers the key, the key stays absent and is never put, and the instance's heartbeat takes at most a number of steps fixed then, and until it has returned can take another |
| `EtcdRegistry.FinalForCallsIff` | adapter/kratos/discovery/etcd/registry.go:86-231 | any history of calls to Register and Deregister guarantees that deregistering is final, whatever etcd and the heartbeats did meanwhile, if and only if retrying is off, the options are done, or every successful registration of the key except the one whose cancel function is kept was cancelled by a call |
| `EtcdRegistry.RunBooked` | adapter/kratos/discovery/etcd/registry.go:86-123 | in every run the calls alone decide which heartbeats were started, for which keys and values, which are cancelled and whose cancel functions are kept |
| `EtcdRegistry.RegisteredIsKept` | adapter/kratos/discovery/etcd/registry.go:102-119 | the registry keeps a cancel function for an instance exactly while it has been registered, with success, since its last deregistration |
| `EtcdRegistry.OverwriteLoses` | adapter/kratos/discovery/etcd/registry.go:102-104 | in every run, registering an instance again while its heartbeat can still put the key makes the next deregistration not final |
| `EtcdRegistry.DeregisterFinalIff` | adapter/kratos/discovery/etcd/registry.go:86-123 | in every run, disciplined or not, deregistering is final if and only if no heartbeat but the instance's own is in a state from which the key can still be put |
| `EtcdRegistry.CancelledReturns` | adapter/kratos/discovery/etcd/registry.go:164-231 | in every continuation a cancelled heartbeat takes at most a number of steps fixed at its cancellation, and until it has returned it can take another |
| `EtcdRegistry.CanPutPuts` | adapter/kratos/discovery/etcd/registry.go:164-231 | a live heartbeat that can still put its key (an attempt under way, a round of retries left, or a lease to lose) does so in some continuation |
| `EtcdRegistry.RegisterTwiceLeaks` | adapter/kratos/discovery/etcd/registry.go:102-104 | a run: registering one instance twice forgets the first cancel function, and deregistering is then final if and only if retrying is off |
| `EtcdWatcher.Instances` | adapter/kratos/discovery/etcd/watcher.go:73-89 | the list read is the entries that decode, in order; the others are skipped, never an error (registry.go:126-143 has the same loop) |
| `EtcdWatcher.WatcherImpl.GetInstance` | adapter/kratos/discovery/etcd/watcher.go:73-89 | a read that succeeds gives the decodable entries under the prefix, in key order; one that fails gives an error |
| `EtcdWatcher.WatcherImpl.ReWatch` | adapter/kratos/discovery/etcd/watcher.go:91-96 | a new watch in place of the old one, open unless the watcher was stopped; `first` untouched |
| `EtcdWatcher.WatcherImpl.Next` | adapter/kratos/discovery/etcd/watcher.go:46-66 | one call of Next is the transition system's steps for it: same `first`, same channel, same list or error, in each of its branches |
| `EtcdWatcher.ViewLocal` | adapter/kratos/discovery/etcd/watcher.go:73-89 | what a read returns depends on the entries under the prefix only |
| `EtcdWatcher.ViewExact` | adapter/kratos/discovery/etcd/watcher.go:73-89 | what a read returns, by the store alone: one item for each key that begins with the prefix and whose value decodes, and each stands after as many items as there are such keys below its own |
| `EtcdWatcher.NoLostUpdate` | adapter/kratos/discovery/etcd/watcher.go:27-96 | in every run, across any number of broken watches and re-watches, with the last Next successful and the watch open and drained, the list last returned is the decodable entries as they are now |
| `EtcdWatcher.NoMissedWakeUp` | adapter/kratos/discovery/etcd/watcher.go:46-66 | a waiting Next whose last good result is out of date always has something to receive |
| `EtcdWatcher.FailedReadGoesStale` | adapter/kratos/discovery/etcd/watcher.go:46-51 | a run in which the first read fails and a quiet, open watch hides an entry that was there: the success proviso above is needed |
| `EtcdWatcher.SuccessRecovers` | adapter/kratos/discovery/etcd/watcher.go:46-96 | from any state, however stale, once a later read has succeeded the list is current again whenever the last call succeeded and the open watch is drained |
| `FormCodec.UnescapeEscape` | middleware/xsign.middleware.go:105-105 | percent-encoding is undone by decoding, for every byte string |
| `FormCodec.EscapeIsPercentEncoded` | middleware/xsign.middleware.go:163-163 | a printed component consists of unreserved bytes, plus signs and percent triplets with upper-case digits |
| `FormCodec.EscapeByteExact` | middleware/xsign.middleware.go:163-163 | the print of each byte: letters, digits and four marks as they are, a space as a plus sign, any other as a percent sign and its two hexadecimal digits |
| `FormCodec.UnescapePiece` | middleware/xsign.middleware.go:105-105 | decoding takes a byte for itself and a plus sign for a space |
| `FormCodec.UnescapeTriplet` | middleware/xsign.middleware.go:105-105 | and a percent sign with two hexadecimal digits for the byte they denote; without them it fails |
| `FormCodec.HexValueExact` | middleware/xsign.middleware.go:105-105 | hexadecimal digits are read in both cases, and no other byte is one |
| `FormCodec.SegmentExact` | middleware/xsign.middleware.go:105-105 | a segment is cut at its first equals sign, is a key with an empty value without one, and is dropped with a semicolon, a bad escape or nothing in it |
| `FormCodec.ParsePairsSegment` | middleware/xsign.middleware.go:105-105 | a query is parsed segment by segment between ampersands, in order |
| `FormCodec.ParsePrintPairs` | middleware/xsign.middleware.go:159-163 | every list of pairs survives printing and parsing, order included |
| `FormCodec.ParseNoEmptyList` | middleware/xsign.middleware.go:105-105 | whatever the raw query, parsing gives no key an empty list of values |
| `FormCodec.ParseEncode` | middleware/xsign.middleware.go:159-182 | encoding a multimap and parsing the text gives the same multimap |
| `FormCodec.EncodeInjective` | middleware/xsign.middleware.go:121-163 | the printed text is canonical: equal exactly when the multimaps are |
| `FormCodec.EncodeInOrder` | middleware/xsign.middleware.go:163-163 | the printed pairs stand in increasing byte-wise order of their keys |
| `FormCodec.PrintShape` | middleware/xsign.middleware.go:163-163 | the printed text is each pair's key, an equals sign and its value, escaped, with ampersands between |
| `FormCodec.GetIsFirst` | middleware/xsign.middleware.go:106-107 | Get gives the first value of a key, and the empty text when there is none |
| `XSign.HexReadsBack` | tools/xsgin/sign.v3.go:31-34 | the hexadecimal text holds both nibbles of each digest byte, high one first, and is twice as long |
| `XSign.HexInjective` | tools/xsgin/sign.v3.go:31-34 | different digests have different hexadecimal texts |
| `XSign.HexIsLower` | tools/xsgin/sign.v3.go:31-34 | the digits are lower-case |
| `XSign.SignV3.Write` | tools/xsgin/sign.v3.go:27-29 | the hash absorbs the bytes after those already written |
| `XSign.SignV3.CheckSum` | tools/xsgin/sign.v3.go:31-34 | the sum covers everything written and the key; the key stays in the hash, so a second call covers it twice |
| `XSign.Request.Snapshot` | middleware/xsign.middleware.go:165-173 | reading the body for the signature leaves the next reader the same bytes |
| `XSign.XSignMiddleware.ClientHTTP` | middleware/xsign.middleware.go:158-184 | the new raw query is the specification function of the old one, body and clock; the body reads as before |
| `XSign.XSignMiddleware.ServerHTTP` | middleware/xsign.middleware.go:92-156 | the verdict (skipped, expired, invalid, passed on) is the specification function of query, body and clock; the handler finds body and query unchanged |
| `XSign.ParseClientQuery` | middleware/xsign.middleware.go:159-182 | what the server parses out of a signed query, minus the signature, is exactly the multimap the client signed |
| `XSign.UnsignedExact` | middleware/xsign.middleware.go:159-161 | the client signs the parameters it was given, apart from x-sign, with x-ts set to the current second in decimal |
| `XSign.SecondAndContent` | middleware/xsign.middleware.go:161-173 | the second is that of the instant rounded down, and the bytes hashed are the canonical query and, below 16777216 bytes of content length, the body |
| `XSign.ExpiryExact` | middleware/xsign.middleware.go:107-118 | for instants a Unix second can carry without wrapping, the saturating 64-bit subtraction decides the one-minute test exactly |
| `XSign.SignedRequestVerdict` | middleware/xsign.middleware.go:92-184 | for every raw query, body, key and pair of clocks: a signed request passes the server with the same key while its timestamp is at most 60 s old, and is refused as expired from then on, provided both sides agree on the 16 MiB branch |
| `XSign.OneSignature` | middleware/xsign.middleware.go:105-150 | two accepted requests with the same parameters apart from x-sign, the same body, branch and clock carry the same x-sign |
| `XSign.VerdictExact` | middleware/xsign.middleware.go:92-184 | a request with the parameters a client signs at some time is refused as expired more than 60 s later, else accepted if and only if its x-sign is the one in that client's query, and invalid with any other |
| `XSign.ResignForgets` | middleware/xsign.middleware.go:158-184 | signing a signed request again equals signing the original at the later time |
| `XSign.ReorderInvisible` | middleware/xsign.middleware.go:120-184 | moving pairs without reordering the values of a key changes neither the client's output nor the server's verdict |
| `XSign.ContentDistinguishes` | middleware/xsign.middleware.go:121-131 | below 16 MiB the bytes hashed are equal exactly when the longer printed query is the shorter one followed by a rest, and the shorter one's body is that rest followed by the longer one's body; at equal lengths, exactly when query multimap and body are equal |
| `XSign.AcceptedMeansSigned` | middleware/xsign.middleware.go:120-150 | if the server accepts a request whose signature was made for other parameters or another body, the bytes hashed were the same or MD5 collides; at equal printed lengths below 16 MiB, parameters and body are the signed ones or MD5 collides |
| `Bytes.JoinSplit` | config/config.go:503-503 | splitting loses nothing, leaves no separator in a part, and gives one part more than separators |
| `Bytes.SplitJoin` | config/config.go:503-503 | splitting a joined list returns its parts if and only if none holds the separator |
| `Bytes.SortedUnique` | middleware/xsign.middleware.go:163-163 | the sorted listing of a set of keys is the only strictly increasing one |
| `Bytes.LeqExact` | middleware/xsign.middleware.go:163-163 | the order is Go's: a prefix comes first, otherwise the smaller byte at the first difference decides |
| `Strconv.ParseUintExact` | config/config.go:626-631 | accepted are exactly the non-empty digit strings that fit; larger ones are clamped with an error |
| `Strconv.ParseIntClamps` | config/config.go:508-542 | an over-range digit string is returned as the nearest bound of the type |
| `Strconv.ParseIntExact` | config/config.go:620-625 | for every text: accepted are a sign or none and digits whose value is in range, and the value is the one they denote |
| `Strconv.ParseBoolExact` | config/config.go:632-637 | the six texts of true and the six of false, and no other |
| `Strconv.ParseIntItoa` | middleware/xsign.middleware.go:107-161 | decimal printing is undone by parsing for every integer of the width |
| `SliceValue.SliceValue.Set` | config/config.go:502-603 | the whole list is replaced by one element per part, whatever it held; no text is an error |
| `SliceValue.ParseListTotal` | config/config.go:502-603 | for every text, one element per comma-separated part, each within the range of its type: no narrowing conversion alters a value |
| `SliceValue.ElementClamped` | config/config.go:508-578 | an over-range digit string becomes the nearest value of the element type |
| `SliceValue.ParsePrintList` | config/config.go:502-603 | Set of the comma-joined print of a non-empty list, floats printed in any way that reads back, returns the list if and only if no string element holds a comma |
| `SliceValue.EmptyTextIsOneElement` | config/config.go:503-603 | the empty text gives one element, zero or what reading no digits gives a float, never an empty list |
| `EnvOverlay.WrapExact` | config/config.go:620-631 | a parsed integer is stored unchanged exactly when the field's width holds it |
| `EnvOverlay.SetSliceField` | config/config.go:645-692 | the loop over the parts writes all elements or, at the first unreadable one, nothing |
| `EnvOverlay.FieldsTyped` | config/config.go:135-210 | the walk, failing or not, leaves a value of the same type |
| `EnvStructs.Struct.ParseEnv` | config/config.go:135-210 | on a heap of structs of which no two pointers share one, fields written in place: the struct then holds exactly the values the specification walk gives, flag, error and allocations included; embedded structs and non-nil pointers stay the same objects |
| `EnvStructs.Struct.ParseOne` | config/config.go:171-206 | one field becomes what the specification says and no other field changes |
| `EnvStructs.Struct.ParseInside` | config/config.go:175-193 | a struct that is there is filled where it is |
| `EnvStructs.Struct.ParseNil` | config/config.go:173-193 | behind a nil pointer a zero struct is filled and the pointer set only when something was set |
| `EnvStructs.Struct.ParseLeaf` | config/config.go:194-206 | a field that leads into no struct; a scalar or slice behind a nil pointer is set in a variable nothing keeps |
| `EnvStructs.NewZero` | config/config.go:174-174 | reflect.New gives a fresh tree of structs, all zero |
| `EnvStructs.IsOne` | config/config.go:135-210 | what a struct on the heap holds is one list of values |
| `EnvPromises.FailsExactly` | config/config.go:130-210 | loading fails exactly when some leaf has a non-empty variable that does not parse |
| `EnvPromises.SetsExactly` | config/config.go:143-209 | on success true is reported exactly when some leaf that is no slice has a non-empty variable |
| `EnvPromises.FlatOverlay` | config/config.go:130-210 | after a successful load every leaf is as wanted (with a non-empty variable the value its text gives, a pointer leaf a non-nil pointer to it; otherwise its old or zero value) if and only if it is neither of two exceptions: a slice, its variable set, behind a pointer that was nil and behind which no leaf but slices is set; a nil pointer to a scalar or slice, its variable set |
| `EnvPromises.WillReachExact` | config/config.go:171-193 | the way to a leaf is free of nil pointers after the load exactly when each pointer on it was non-nil before or has a leaf behind it, no slice, with a non-empty variable |
| `EnvPromises.SliceDropped` | config/config.go:171-197 | the first exception occurs: a list behind a nil pointer, its variable set, the load successful, the list dropped |
| `EnvPromises.ScalarDropped` | config/config.go:171-206 | the second occurs for scalars of every kind: a nil pointer, its variable set and parsable, the load successful and reporting that something was set, the pointer still nil |
| `EnvPromises.LazyAllocation` | config/config.go:171-193 | a pointer to a struct keeps its identity; a nil one becomes a new one exactly when some leaf behind it that is no slice has a non-empty variable |
| `EnvPromises.LoadTwice` | config/config.go:130-210 | a second load from the same environment changes nothing, allocates nothing and reports the same |
| `EnvPromises.LoadLocal` | config/config.go:130-210 | environments that agree on the leaves' variables give identical results |
| `EnvTexts.EnvKeyExact` | config/config.go:147-169 | a variable's name: an env tag as it stands, else the prefix, an underscore and in upper case the yaml tag, or the json tag, or the field's name |
| `EnvTexts.ToUpperExact` | config/config.go:147-151 | upper case letter by letter, other bytes as they are |
| `EnvTexts.NestedName` | config/config.go:153-182 | a field of a nested struct is looked up under the names on the way joined by underscores |
| `EnvTexts.TrimExact` | config/config.go:613-656 | trimming takes all white space off both ends and nothing else |
| `EnvTexts.ReadableExact` | config/config.go:605-643 | the texts each kind of scalar accepts, in terms of digits and bytes |
| `EnvTexts.ListReadable` | config/config.go:652-688 | a list accepts a text exactly when its elements accept all of its parts, trimmed |
| `EnvTexts.ScalarLoads` | config/config.go:130-210 | round trip through the load: with the print of a value in its variable a scalar leaf ends with exactly that value |
| `EnvTexts.PointerLoads` | config/config.go:171-206 | the same behind a non-nil pointer, which stays the same pointer |
| `EnvTexts.ListLoads` | config/config.go:645-692 | the same for lists: prints with commas between, white space around them allowed, give exactly these values in order in a leaf the load reaches |
| `EnvTexts.IntegerLoads` | config/config.go:620-631 | a leaf ends with the number its text denotes exactly when its width holds it, and otherwise with one that differs by a multiple of two to the width |
| `FlagLayers.PickFlagName` | config/config.go:244-257 | the loop over the parts of a tag: the last one-byte part is the shorthand, the last longer one the name |
| `FlagLayers.NamesExact` | config/config.go:239-257 | which part of a tag is the name and which the shorthand, by position and length |
| `FlagLayers.ParseFlagStruct` | config/config.go:220-344 | the walk registers exactly the flags of the specification, or fails at the first tagged field of another type, and registering leaves every value as it was (the pflag walker, lines 354-479, is the same but for the shorthand) |
| `FlagLayers.WalkSound` | config/config.go:220-344 | every registered flag writes a field of its own, of the type it was registered with |
| `FlagLayers.WalkComplete` | config/config.go:220-344 | every tagged field reached through value structs is registered |
| `FlagLayers.SupportedExact` | config/config.go:262-338 | the types that take a flag, one by one |
| `FlagLayers.WalkFailsIff` | config/config.go:220-344 | registration fails if and only if a tagged field reached through structs has another type |
| `FlagLayers.LookupExact` | config/config.go:354-479 | a use finds the flag of its name, or of its shorthand when it is short, and no other; package flag knows no shorthands |
| `FlagLayers.GetPut` | config/config.go:262-338 | writing through one flag shows at its own field only |
| `FlagLayers.PutGet` | config/config.go:263-269 | writing a field's current value back changes nothing |
| `FlagLayers.LastUseWins` | config/config.go:212-218 | after parsing arguments, a field holds its flag's last use, or what it held when the flag is not used |
| `FlagLayers.LoadConfig` | config/config.go:82-112 | options in the order given, then the layers YAML, environment, flag, pflag, each on the values the one before left, stopping at the first that fails with what it wrote in place |
| `FlagLayers.EnvAlwaysOn` | config/config.go:38-53 | no choice of options turns the environment layer off |
| `FlagLayers.ChosenExact` | config/config.go:38-87 | of each option the last one given counts; without any the prefix is CODO and the other layers are off |
| `FlagLayers.Precedence` | config/config.go:82-112 | after an error-free load a flagged field holds the last pflag use, else the last flag use, else its non-empty environment value, else what YAML left |
| `StdLogger.Logger.Log` | logger/std.go:36-58 | one call appends its rendered line, or what the writer took of it, and leaves only empty buffers in the pool; nothing happens without keyvals or when discarding |
| `StdLogger.Logger.Format` | logger/std.go:40-51 | the loop over the pairs, odd lists padded, fills the buffer with the rendered line |
| `LogLine.RenderEndsLine` | logger/std.go:47-51 | a rendered call ends with a newline |
| `LogLine.RenderReadsBack` | logger/std.go:47-51 | a line whose keys and values have no space, equals sign or newline, split at the spaces, gives the level and one part per pair, and each part, split at the equals sign, its key and value, in order |
| `LogLine.OddReadsBack` | logger/std.go:40-51 | a key too many is printed after the pairs with the value KEYVALS UNPAIRED |
| `LogLine.LevelTexts` | logger/level.go:28-43 | the texts of the five levels, and none for any other |
| `StdLogger.LineAtomicity` | logger/std.go:36-58 | in every interleaving, in however many pieces the writer takes each line, the sink is the lines of the finished writes, never mixed, in the order the mutex was taken, then what was taken so far of the line of the mutex's holder; each goroutine's calls appear once each in its own order; a failing write cuts only its own line |
| `StdLogger.PartwayIsHolders` | logger/std.go:54-57 | a goroutine inside Write holds the mutex and the line in progress is a prefix of its own rendered line; with the mutex free there is none |
| `StdLogger.BufferOwnership` | logger/std.go:44-52 | no two goroutines hold one buffer, none is held and pooled at once, pooled buffers are empty |
| `StdLogger.OneWriter` | logger/std.go:54-56 | at most one goroutine is between taking and releasing the mutex |
| `StdLogger.NoDeadlock` | logger/std.go:36-58 | a goroutine inside a call, or the holder of the mutex, can always take its next step |
| `CasMemory.MemoryImpl.CAS` | tools/cascmd/memory.go:16-28 | map and answer are those of one atomic compare-and-set; setting to the empty string deletes |
| `CasMemory.CasExact` | tools/cascmd/memory.go:16-28 | the answer is whether the key read as expected; then it reads as the new value, or is gone for the empty one, and otherwise nothing changed; other keys never change |
| `CasMemory.MutualExclusion` | tools/cascmd/memory.go:16-28 | with distinct non-empty tokens, every interleaving keeps at most one holder per key, the map holds exactly the holder's token, and no key maps to the empty string |
| `CasMemory.AttemptExact` | tools/cascmd/memory.go:16-28 | acquiring succeeds exactly on a free lock, releasing exactly on one's own |
| `CasRedis.RedisImpl.CAS` | tools/cascmd/cas_cmd.go:25-56 | alone and with every command answered it is the in-process operation on the values not expired; true always means that; after a failed command the store is the old one or the written one; what is written expires after a minute |
| `CasRedis.RedisImpl.CASAll` | tools/cascmd/cas_cmd.go:25-56 | a sequence of calls made one after another gives the answers and the store of the specification with expiry |
| `CasRedis.SequentialRefinement` | tools/cascmd/cas_cmd.go:25-56 | for every sequence of calls made one after another at whatever times, from every store: the answers are those of the in-process map if and only if no call comes after its key's value has expired and asks for that value or for none, by the in-process run of the same calls; and then keys and values are the in-process ones too |
| `CasRedis.WithinAMinute` | tools/cascmd/cas_cmd.go:25-56 | in particular, within a minute and on a store of which nothing expires meanwhile, where expiry never shows |
| `CasRedis.LockLapses` | tools/cascmd/cas_cmd.go:47-47 | two clients taking one free lock, neither giving it back: the second succeeds if and only if a minute has passed |
| `CasRedis.SerialExactly` | tools/cascmd/cas_cmd.go:29-56 | overlapping calls act and answer as if made one by one all along if and only if at each write the test of its key still comes out as when it was read |
| `CasRedis.AnswerAtBegin` | tools/cascmd/cas_cmd.go:32-52 | in every schedule the answer of a call is settled when it begins: true if and only if its get saw the expected value |
| `CasRedis.Serializable` | tools/cascmd/cas_cmd.go:25-56 | calls may overlap at will as long as none begins on a key another client's call is busy with: they then act and answer as if made one by one in the order of their writes |
| `CasRedis.RedisMutualExclusion` | tools/cascmd/cas_cmd.go:25-56 | lock clients with distinct non-empty tokens under that discipline: at most one holder per key, the store holds exactly the holder's token, no key holds the empty string |
| `CasRedis.OverlapBreaksExclusion` | tools/cascmd/cas_cmd.go:25-56 | without it the lock is lost: for every key and any two clients, two overlapping lock calls are both told they got it and both clients hold it |
| `CasRedis.OverlapLosesLock` | tools/cascmd/cas_cmd.go:30-50 | so in every schedule on every store in which two lock calls on a free key begin before either is committed, with no other call on the key committed between the two beginnings |
| `RangeQuery.QueryRange` | client/xvm/client.go:166-186 | the loop over any options gives the numbers emitted, and the limit that is divided by is never zero |
| `RangeQuery.LimitStaysPositive` | client/xvm/client.go:151-158 | the limit is the last non-zero one given, or 1000 |
| `RangeQuery.LastOptionWins` | client/xvm/client.go:137-158 | of each kind of option the last one given counts, for its own field only, and a limit of zero does not |
| `RangeQuery.EmitExact` | client/xvm/client.go:180-186 | start and end are emitted in whole seconds rounded down, the limit as it is |
| `RangeQuery.StepUsable` | client/xvm/client.go:121-184 | the emitted step is positive if and only if the range spans a second per sample of the limit |
| `RangeQuery.EnoughSamples` | client/xvm/client.go:121-186 | a positive step gives at least limit + 1 samples, saturated Duration or not |
| `RangeQuery.SampleBounds` | client/xvm/client.go:121-186 | without saturation the number of samples lies between n + 1 and n + floor(n/s) + 1, hence at most 2n + 1 |
| `RangeQuery.SampleBoundsTight` | client/xvm/client.go:121-186 | both bounds are reached for every limit |
| `RangeQuery.SaturatedBound` | client/xvm/client.go:121-186 | of every range too long for a Duration the step is that of the longest Duration and positive, and the samples stay within 2n + 1 if and only if the whole seconds of the range are fewer than 2n + 1 such steps |
| `RangeQuery.SaturationBreaksBound` | client/xvm/client.go:121-186 | a range beyond that exists |
| `Xip.IsIntranetExact` | xnet/xip/ip.go:104-137 | on the dotted decimal of every IPv4 address the textual test holds if and only if the 32-bit address is in 10/8, 172.16/12 or 192.168/16, or is 127.0.0.1 |
| `Xip.DottedExact` | xnet/xip/ip.go:95-95 | the dotted text is the four octets in decimal, in order |
| `Xip.IsIntranetLoose` | xnet/xip/ip.go:110-137 | on every text in four parts, whatever they hold: true exactly for a first part 10, parts 192 and 168, a first part 172 with a second that is a decimal number from 16 to 31 (leading zeros and a plus sign allowed), or 127.0.0.1 |
| `Xip.IsIntranetFourParts` | xnet/xip/ip.go:111-117 | no text with other than three dots passes |
| `Xip.PassesExact` | xnet/xip/ip.go:87-98 | the filter keeps an address exactly when it is IPv4 in a private block, the loopback test included |
| `Xip.AppendPrivate` | xnet/xip/ip.go:78-99 | the loop over one interface appends its private addresses in order |
| `Xip.GetIntranetIpArray` | xnet/xip/ip.go:50-102 | over the host's interfaces, if they can be listed, it returns the private addresses of those considered, in order, and what it had so far at the first interface that cannot be read |
| `Xip.HostExact` | xnet/xip/ip.go:60-101 | when every interface that counts can be read, a text is found exactly if it is that of an IPv4 address in a private block on an interface that is up, is no loopback and whose name does not begin with w and a dash |
| `Xip.CompleteExact` | xnet/xip/ip.go:60-77 | there is no error exactly when every such interface can be read |
| `Xip.To4Exact` | xnet/xip/ip.go:90-94 | IPv4 addresses in four octets and in sixteen |

## Left out

- EtcdRegistry.SteadyRegistration: assumes that a key is registered only while no live heartbeat keeps it, which `EtcdRegistry.SteadyForCallers` derives from the calls made; without it the code promises nothing about a key, as `EtcdRegistry.RegisterTwiceLeaks` shows.
- EtcdRegistry.DeregisterFinalIff: its condition speaks of the states of other heartbeats; what a caller can go by is in `EtcdRegistry.DeregistrationIsFinal` and, exactly, in `EtcdRegistry.FinalForCallsIff`.
- XSign.SignedRequestVerdict: the client's Unix second must be one that `time.Unix` represents (the next 290 billion years), and both sides must take the same content-length branch, as a body sent with a false length may not.
- EnvStructs.Struct.ParseEnv: a pointer to something other than a struct is held as a value with an identity; sharing between two such pointers, and two pointers to one struct, are not represented.
- FlagLayers.LoadConfig: registering a name twice, which panics, counts as a failing layer; flag sets are empty when passed in.
- FlagLayers.LastUseWins: takes the uses of flags as already found; splitting arguments is the work of the flag packages.
- StdLogger.LineAtomicity: keys and values are already text; a value with a newline in it is part of its call's line.
- CasRedis.RedisImpl.CAS: other clients' commands during a call are in `CasRedis.Serializable` instead.
- CasRedis.Serializable: no expiry; a call takes effect at one moment in `CasRedis.RedisImpl.CAS`.
- RangeQuery.QueryRange: dividing a Duration into float seconds and truncating is taken as integer division by a second.
- HeartbeatLoop.Beating.HeartBeat: runs for as long as its script of outcomes goes on, as the outer loop need not end.
- EtcdWatcher.WatcherImpl.Next: runs undisturbed; what others do between its steps is in the transition system.
- The effect of `r.lease.Close()` on running attempts, sharing of `r.lease`, and unsynchronised use of `ctxMap`: registry calls are sequential and a grant always reaches etcd.
- Recursive types, unexported fields, and named scalar types in configuration structs, on which reflection recurses without end or panics.
- `strings.ToUpper` and `strings.TrimSpace` beyond ASCII.
- Errors of reading a request body, and limits of package net/url.
- The text of a registry key, made of service name and id, and MD5 internals, encoding and decoding of service instances, YAML, JSON and protobuf.
- `service.go`, `idip`, `cerr`, transports, tracing, Kafka, MySQL, Redis, HTTP and WebSocket wrappers, log levels and helpers, option setters, result accessors: thin wrappers and look-ups that would only add easy members.
