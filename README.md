# Byzantine generals: a Dafny model of the OM(m) simulation

This project models the deterministic core of `BGenerals.go`, a simulation of the Oral
Messages algorithm OM(m) from Lamport, Shostak and Pease, "The Byzantine Generals
Problem" (ACM TOPLAS 4(3), 1982). A commander (ID 0) sends an order, 'A' or 'R', to the
lieutenants 1 .. numGenerals - 1. Each lieutenant logs what it receives. It relays every
message whose path is still shorter than recurse + 1 hops to the lieutenants that are not
yet on the path. At the end it decides by a recursive majority over its log. A traitor
(commander or lieutenant) flips the order of what it sends to even-numbered lieutenants.

Messages keep the source's string form `"<order> <hops>"` (for example `"A 012"`): one
order character, a blank, and one decimal digit per participant the message has passed
through, commander first.

Modules:

- `Wrappers` (wrappers.dfy): the `Result` type for the two error paths (a path that does
  not decode, a refused configuration).
- `Codec` (codec.dfy): digits, `Itoa`, the hop-digit encoding `EncodePath` and its
  decoding `DecodePath`, the loop methods `Transpose` and `Find`, and the decoded message
  `Msg` with `Encode`/`Decode`.
- `Relay` (relay.dfy): the traitor's lie (`ReplaceFirst`, `Corrupt`), the outgoing message
  `Outgoing`, the predicate `FanOut` that says which sends one loop over the lieutenants
  makes, the `Lieutenant` class (its `received` log, `Broadcast`, `Relay`, `Receive`,
  `Report`), and the path invariants of relaying.
- `Vote` (vote.dfy): `getVote` as the function `GetVote` (with `Descendants`, `ChildVotes`
  and `Majority`), as the loop method `ComputeVote`, and its properties.
- `Coordinator` (coordinator.dfy): the configuration check and the seeding from `main`,
  the start of the lieutenants, and the decision read off a returned log.
- `OneRound` (rounds.dfy): a whole run with recurse = 1, built from the seeds, the
  broadcasts and the vote, with its agreement and validity theorems.

What is proved, in short:

- Decoding the hop digits the relays append gives back the path (IDs 0..9), and the
  other way round.
- One relay step sends exactly to the lieutenants of [1, numGenerals) that are off the
  path and not the sender, in increasing order. Each message is the incoming one with the
  sender's digit appended. Its order is flipped exactly when the sender is a traitor and
  the recipient is even.
- Nothing is relayed once the path has recurse + 1 hops. So every relayed message has at
  most recurse + 1 hops, and, from the seeds on, no path repeats an ID and no recipient is
  already on its path.
- The vote is the message's own order at the depth bound. Above it, it is a strict
  majority with ties going to 'R'. A unanimous subtree votes its order. Entries no longer
  than the message (the ID marker) never matter. The vote does not depend on the arrival
  order of the log.
- When a lieutenant's seed and every message in its log carry the order o, it decides o.
- With recurse = 1, each first-round broadcast reaches every other lieutenant once and
  is not relayed. If a lieutenant's log is its seed plus one such broadcast from every
  other lieutenant, in any order, its decision is the majority of those orders. Under
  that premise: when no lieutenant is a traitor, all lieutenants decide alike, even under
  a traitorous commander; under a loyal commander, while fewer than half of the
  lieutenants are traitors, every lieutenant decides the commander's order.

In Lamport, Shostak and Pease's OM(m) a lieutenant takes the majority of one value per
other lieutenant. The source's scan at line 130 instead takes every log entry whose hop
digits extend the message's, so a vote counts all descendants, not only the one-hop
children. The model follows the source (`Descendants`, `ExtendsIsPathPrefix`).

## Model

| member | source | states |
|---|---|---|
| `Codec.DigitValue` | BGenerals.go:108 | strconv.Atoi of a digit character is a value below 10 whose digit character it is |
| `Codec.Itoa` | BGenerals.go:42 | Itoa gives at least one decimal digit; it is a single character exactly for IDs below 10, and that character's value is the ID |
| `Codec.EncodePath` | BGenerals.go:65 | the appended hop digits are all decimal digits, one per hop when every ID is below 10 |
| `Codec.DecodePath` | BGenerals.go:100-117 | transpose succeeds iff every character is a digit; it then returns one ID per character, the i-th being the value of character i; otherwise it is the fatal decode error |
| `Codec.Transpose` | BGenerals.go:100-117 | the array-filling loop with its early error exit computes exactly DecodePath |
| `Codec.PathRoundTrip` | BGenerals.go:100-117 | decoding the digits of a path of IDs 0..9 gives back that path |
| `Codec.PathDecodeEncode` | BGenerals.go:100-117 | a digit string that decodes to a path is that path's encoding |
| `Codec.Find` | BGenerals.go:88-96 | find returns true iff the ID is on the path |
| `Codec.Decode` | BGenerals.go:60 | a decoded message has its order at index 0 and the path that transpose gives for the characters from index 2 |
| `Codec.MsgRoundTrip` | BGenerals.go:60 | decoding an encoded message with IDs 0..9 gives it back |
| `Codec.MsgDecodeEncode` | BGenerals.go:60 | a string that decodes is the encoding of what it decodes to, and its IDs are below 10 |
| `Relay.ReplaceFirst` | BGenerals.go:45 | strings.Replace with count 1 keeps the length and changes exactly the first occurrence; the string changes iff the character occurs |
| `Relay.Corrupt` | BGenerals.go:44-48 | the lie keeps the length and changes at most one character: the first 'A' to 'R', or, when there is no 'A', the first 'R' to 'A'; it leaves the string alone iff there is neither (on messages CorruptFlips) |
| `Relay.Outgoing` | BGenerals.go:41-48 | the sent string is the incoming one, or its lie, followed by Itoa of the sender; the incoming part is unchanged iff the sender is loyal, the recipient odd, or there is no order character (decoded by OutgoingDecodes) |
| `Relay.CorruptFlips` | BGenerals.go:44-48 | on a well-formed message the lie swaps A and R once and leaves separator and hop digits untouched |
| `Relay.OutgoingDecodes` | BGenerals.go:64-71 | an outgoing message carries the incoming path plus the sender; its order differs exactly when the sender is a traitor and the recipient even |
| `Relay.AppendHop` | BGenerals.go:65 | appending Itoa of the sender to a message string appends the sender to its decoded path |
| `Relay.RelayKeepsPathsGood` | BGenerals.go:61-65 | relaying a message whose path starts at 0, repeats no ID and misses the relaying lieutenant gives messages with the same properties for their recipients, one hop longer |
| `Relay.BroadcastKeepsPathsGood` | BGenerals.go:39-42 | the broadcast of a seed with path [0] reaches each recipient with path [0, sender], with the order rule of the lie |
| `Relay.FanOutReaches` | BGenerals.go:62-65 | a fan-out sends each lieutenant it must reach exactly one message, and that message is Outgoing |
| `Relay.Lieutenant.constructor` | BGenerals.go:36-37 | the received log starts as the commander message alone |
| `Relay.Lieutenant.Broadcast` | BGenerals.go:39-51 | the seed goes to every lieutenant of [1, numGenerals) except the sender, in increasing order, with no path or depth check, each as Outgoing |
| `Relay.Lieutenant.Relay` | BGenerals.go:61-74 | nothing is sent when the path has at least recurse + 1 hops; otherwise exactly the lieutenants off the path and not the sender are sent Outgoing, in increasing order |
| `Relay.Lieutenant.Receive` | BGenerals.go:57-75 | the message is appended to the log; a path that is not all digits is the fatal error; a deliverable message is relayed only as deliverable messages of at most recurse + 1 hops |
| `Relay.Lieutenant.Report` | BGenerals.go:78 | the log handed over is the received log with the lieutenant's ID appended |
| `Vote.Extends` | BGenerals.go:130 | an entry lies below a message iff it is longer and agrees with it on every hop digit, order character and separator aside (a path prefix by ExtendsIsPathPrefix) |
| `Vote.DescendantsStep` | BGenerals.go:129-133 | one more scanned entry is added to the descendants exactly when it lies below the message |
| `Vote.ExtendsTransitive` | BGenerals.go:130 | an entry below an entry below a message is below the message |
| `Vote.ExtendsIsPathPrefix` | BGenerals.go:130 | on well-formed messages the string test of the scan holds iff the decoded path is longer and starts with the message's path |
| `Vote.Descendants` | BGenerals.go:129-133 | the entries the scan recurses on are exactly the log entries below the message |
| `Vote.ChildVotes` | BGenerals.go:127-133 | there is one vote per entry below the message |
| `Vote.Count` | BGenerals.go:144-150 | the count of a character never exceeds the number of votes (its multiplicity by CountIsMultiplicity) |
| `Vote.CountIsMultiplicity` | BGenerals.go:144-150 | the counting loop's count of c is the number of occurrences of c, in any order |
| `Vote.Majority` | BGenerals.go:135-156 | the result is A or R, and A exactly when the A votes, own order included, are a strict majority; a tie gives R |
| `Vote.GetVote` | BGenerals.go:121-157 | at recurse + 1 hops the vote is the message's own order character; otherwise it is A or R |
| `Vote.ComputeVote` | BGenerals.go:121-157 | the scan-and-count loops of getVote compute GetVote |
| `Vote.Tally` | BGenerals.go:135-156 | the counting loop over the own order and the child votes computes Majority |
| `Vote.MajorityUnanimous` | BGenerals.go:135-156 | a ballot where the own order and every vote are X elects X |
| `Vote.UnanimousVote` | BGenerals.go:121-157 | if a message and every log entry below it carry the order X, its vote is X |
| `Vote.VoteIgnoresShortEntry` | BGenerals.go:129-131 | adding a log entry no longer than the message does not change its vote |
| `Vote.VoteIgnoresArrivalOrder` | BGenerals.go:129-150 | two logs with the same entries, in any order, give the same vote |
| `Coordinator.CounterOrder` | BGenerals.go:200-204 | the counter-order is 'A' or 'R', 'R' exactly for the order "A", and never the order itself |
| `Coordinator.SeedMessage` | BGenerals.go:206-222 | a seed is an order, the commander's or its counter-order, followed by " 0"; it is the commander's own exactly unless the commander is a traitor and the lieutenant even (decoded by SeedDecodes) |
| `Coordinator.SeedDecodes` | BGenerals.go:206-222 | lieutenant j's seed has path [0] and the commander's order, flipped iff the commander is a traitor and j is even |
| `Coordinator.SeedDeliverable` | BGenerals.go:210-220 | every seed is deliverable to its lieutenant |
| `Coordinator.Seeds` | BGenerals.go:179-222 | the run is refused iff recurse >= numGenerals - 1; otherwise there is one seed per lieutenant 1 .. numGenerals - 1 |
| `Coordinator.Start` | BGenerals.go:179-223 | a refused configuration starts no lieutenant; otherwise lieutenant j is fresh, with ID j, its seed, its traitor flag and a log holding only its seed |
| `Coordinator.Decide` | BGenerals.go:227 | the report names the last log entry as the lieutenant and votes on the first entry over the whole log |
| `Coordinator.DecisionIgnoresId` | BGenerals.go:226-227 | the ID appended to the log does not change the decision |
| `Coordinator.LoyalRunDecidesOrder` | BGenerals.go:225-228 | when the seed and every received message carry the order o, the decision is o |
| `OneRound.SeedChars` | BGenerals.go:206-222 | lieutenant k's seed is the three characters "<order seen> 0", the encoding of path [0] |
| `OneRound.DeliveredChars` | BGenerals.go:39-51 | lieutenant k's first broadcast to i is "<order> 0<k>" with the commander's lie to k and then k's lie to i applied |
| `OneRound.BroadcastDelivers` | BGenerals.go:39-51 | a broadcast that meets Broadcast's contract sends lieutenant i exactly one message, and it is the delivered broadcast |
| `OneRound.InboxShape` | BGenerals.go:39-51 | lieutenant i receives one first-round broadcast from each lieutenant other than itself |
| `OneRound.InboxIsNotRelayed` | BGenerals.go:60-61 | with recurse = 1 each first-round broadcast decodes to two hops, so Receive does not relay it |
| `OneRound.DescendantsAppend` | BGenerals.go:129-133 | the descendants found in a concatenated log are those of each part, in order |
| `OneRound.DescendantsOfAll` | BGenerals.go:129-133 | a log whose every entry extends the message is its own list of descendants |
| `OneRound.SeedVote` | BGenerals.go:121-157 | over the seed and first-round broadcasts, at recurse 1, the seed's vote is the majority of its order and the broadcasts' orders |
| `OneRound.FirstHopExtends` | BGenerals.go:130 | a first-round broadcast lies below every seed |
| `OneRound.FirstHopVotes` | BGenerals.go:123-124 | at recurse 1 the first-round broadcasts below a seed each vote their own order |
| `OneRound.OneRoundDecision` | BGenerals.go:225-227 | under OM(1) lieutenant i decides the majority of its seed's order and its inbox's orders, whatever the arrival order |
| `OneRound.BallotStep` | BGenerals.go:39-51 | each further lieutenant other than i adds the order of its broadcast to i's ballot |
| `OneRound.CountSnoc` | BGenerals.go:144-150 | appending one vote raises its character's count by one and leaves the other counts alone |
| `OneRound.LoyalStep` | BGenerals.go:39-42 | with loyal lieutenants, a further lieutenant other than i adds one 'A' to i's ballot exactly when its seed says 'A' |
| `OneRound.LoyalBallot` | BGenerals.go:39-51 | with loyal lieutenants, i's ballot holds exactly as many 'A' as there are 'A' seeds |
| `OneRound.SameTally` | BGenerals.go:135-156 | two ballots of one size with equally many 'A' elect the same order |
| `OneRound.OneRoundAgreement` | BGenerals.go:206-228 | with recurse = 1 and no traitorous lieutenant, any two lieutenants decide the same order, whatever the commander sends |
| `OneRound.CountBoth` | BGenerals.go:144-150 | in a ballot of 'A' and 'R' votes the two counts add up to its size |
| `OneRound.LoyalCommanderStep` | BGenerals.go:41-48 | under a loyal commander, a further lieutenant's broadcast adds an opposite vote only when that lieutenant is a traitor |
| `OneRound.LoyalCommanderBallot` | BGenerals.go:41-48 | under a loyal commander no more broadcasts carry the opposite order than there are traitors among their senders |
| `OneRound.OneRoundValidity` | BGenerals.go:206-228 | with recurse = 1, a loyal commander and fewer than half of the lieutenants traitors, every lieutenant decides the commander's order |

## Left out

- Goroutines, channels, `select` and the two-second quiescence timeout (lines 55-81,
  185-190, 225-228): concurrency and wall-clock time. The received log is any sequence a
  lieutenant's `Receive` calls build; no scheduler is simulated. The actor loop's quirks
  that belong to this layer (the `break` at line 79 leaves only the `select`, line 83 is
  unreachable, and the channel capacity is zero when recurse is 0) are not modelled.
- The random traitor choice (lines 195, 209, 216): the commander's and each lieutenant's
  traitor flag are inputs (`commTraitor`, `traitors`).
- Command-line parsing, `strconv.Atoi` of the arguments, printing and `os.Exit` (lines
  163-177, 59, 111-112): I/O. The configuration arrives as integers and a string; the
  decode failure of transpose is a `Failure` result instead of a process exit.
- IDs of 10 and more: `Itoa` of such an ID has two or more digits, which one-character
  decoding splits into several hops. `Lieutenant` and `Start` require numGenerals <= 10.
- A negative recursion level is not modelled. It can pass the check at line 179, and then
  the run depends on numGenerals. With numGenerals >= 1 the channel capacity at line 189
  is negative and the run fails there. With numGenerals < 0 the slice made at line 185
  has a negative length and the run fails there. With numGenerals = 0 (and recurse <= -2)
  no loop runs and the program ends normally with no lieutenants. `Start` requires
  recurse >= 0, so it excludes all three runs, the zero-lieutenant one included; `Seeds`
  accepts any integers.
- `Receive` and `GetVote` require messages of at least two characters: the source slices
  `msg[2:]` and would fail at run time on anything shorter.
- Strings are sequences of characters; the source's byte length and its splitting into
  UTF-8 characters differ only on non-ASCII input, which is not modelled.
- The theorems of `OneRound` take lieutenant i's log as a parameter and require that it
  hold its seed first and then, in any order, exactly the broadcasts of the other
  lieutenants. That the channels deliver every broadcast once and nothing else cannot be
  stated without a scheduler. `BroadcastDelivers` and `InboxIsNotRelayed` give the two
  halves that the model can reach: each broadcast sends i one message, and none of them
  is relayed. Runs with recurse >= 2 have no end-to-end theorem.
- Coordinator.LoyalRunDecidesOrder: its premise, that the seed and every logged message
  carry the order o, is required, not derived. No lemma shows that a run without traitors
  produces such a log for recurse >= 2, since that would need every relayed message to be
  traced through the channels. For recurse = 1 the `OneRound` theorems state their premise
  in terms of the broadcasts instead.
