# Arbiter testbench reference model

This project models the reference logic of the cocotb testbench for the
AXI-Interconnect arbiter (`AXI-Interconnect/tb/test_arbiter.py`) in Dafny.
The testbench holds request vectors as integers, one bit per arbiter port
(bit i is port i). Its `TB` class has these helpers:

- `request_putdown` clears one port's request bit.
- `generate_grants` lists the indices of the set bits, lowest first.
- `generate_acknowledge` builds the one-hot acknowledge vector of a port.
- `generate_request` draws a random vector below `2^ports`.

`run_test_arbitration` drives each drawn vector onto the arbiter. Once per
requested port, it reads the index the arbiter grants and accepts it only if
that port was requested in the vector as first applied. It then acknowledges
the next lowest requested port and withdraws that port's request.

The project has two modules:

- `Bits` (`bits.dfy`) holds the arithmetic of bit vectors as natural numbers:
  `Pow2`, the bit predicate `Bit`, and the division and bit lemmas the proofs
  rest on.
- `TestArbiter` (`test_arbiter.dfy`) holds the testbench logic.
  - The pure helpers are functions.
  - `generate_grants` and the two loops of `run_test_arbitration` are methods
    with `while`/`for` loops.
  - `GenerateGrants` and `RunArbitration` are proved against specification
    functions:
    - `Grants` specifies `GenerateGrants`.
    - `Rejection` specifies the outcome of the grant checks.
    - `Drives` specifies the vectors written to the arbiter.
  - Lemmas state what those functions mean in terms of request bits.
  - `RunTestArbitration` states its verdict outright in terms of request
    bits.

The arbiter is not modelled. Its `grant_encoded` output is a parameter: a
function from the round (and, in the outer loop, the vector) to the granted
index. A failing Python `assert` becomes the `Failed`/`Fail` outcome, which
records the round and the offending index.

## Model

| member | source | states |
|---|---|---|
| TestArbiter.RequestPutdown | AXI-Interconnect/tb/test_arbiter.py:43-47 | bit n is clear in the result, and the result is request - 2^n when bit n was set and request unchanged otherwise |
| TestArbiter.PutdownFacts | AXI-Interconnect/tb/test_arbiter.py:43-47 | remainder plus the shifted main part is never negative, clears bit n, keeps every other bit and equals request - 2^n exactly when bit n was set |
| TestArbiter.PutdownKeepsOtherBits | AXI-Interconnect/tb/test_arbiter.py:43-47 | request_putdown(request, n) agrees with request on every bit other than n |
| TestArbiter.GenerateAcknowledge | AXI-Interconnect/tb/test_arbiter.py:63-64 | the acknowledge vector of port n has port n as its only grant: generate_grants of it is [n] |
| TestArbiter.AcknowledgeOneHot | AXI-Interconnect/tb/test_arbiter.py:63-64 | generate_acknowledge(n) is one-hot: bit i is set exactly when i == n |
| TestArbiter.GenerateGrants | AXI-Interconnect/tb/test_arbiter.py:49-61 | the shifting loop returns Grants(request), a strictly increasing list whose 2^k sum is the request again |
| TestArbiter.GrantsMembers | AXI-Interconnect/tb/test_arbiter.py:49-61 | port k is listed exactly when bit k of the request is set |
| TestArbiter.GrantsRoundTrip | AXI-Interconnect/tb/test_arbiter.py:49-61 | the list is strictly increasing and adding 2^k over it gives back the request (RequestOf is a left inverse of Grants) |
| TestArbiter.RequestOfGrants | AXI-Interconnect/tb/test_arbiter.py:49-61 | for every strictly increasing list of ports, generate_grants of the sum of 2^k over it gives the list back (RequestOf is also a right inverse on such lists) |
| TestArbiter.GrantsEmpty | AXI-Interconnect/tb/test_arbiter.py:49-61 | the list is empty exactly for the zero vector |
| TestArbiter.GrantsBelowPorts | AXI-Interconnect/tb/test_arbiter.py:39-41 | for a vector generate_request can draw (below 2^ports) every listed grant is a port index below ports |
| TestArbiter.DrawableIffPortsExist | AXI-Interconnect/tb/test_arbiter.py:39-41 | a vector is in the range of generate_request (Drawable: below 2^ports) exactly when every port it lists is below ports |
| TestArbiter.PutdownLowest | AXI-Interconnect/tb/test_arbiter.py:96-99 | putting down the lowest requested port removes exactly the head of the grant list |
| TestArbiter.PutdownRound | AXI-Interconnect/tb/test_arbiter.py:96-102 | in round i, with grants[i..] still requested, putting down grants[i] leaves grants[i + 1..], and the new vector plus the acknowledge of grants[i] is the old vector |
| TestArbiter.RejectionFrom | AXI-Interconnect/tb/test_arbiter.py:85-93 | the checks from round i pass iff every granted index from round i on is in the grant list; a failure names the first round whose index is not |
| TestArbiter.ArbitrationOutcome | AXI-Interconnect/tb/test_arbiter.py:81-93 | a vector passes iff every round grants a port whose bit is set in the vector as first applied; a failure is at the first round granting an unrequested port, with every earlier grant requested |
| TestArbiter.DrivesElement | AXI-Interconnect/tb/test_arbiter.py:96-100 | round k acknowledges the k-th lowest requested port and drives RequestOf of the higher requested ports |
| TestArbiter.DrivenRequest | AXI-Interconnect/tb/test_arbiter.py:99-100 | the vector driven in round k has exactly the requested ports above the k-th lowest: its grant list is the rest of the original list, and bit x is set iff x is in that rest |
| TestArbiter.DrivesChain | AXI-Interconnect/tb/test_arbiter.py:96-100 | each driven vector plus its acknowledge is the previous vector (the first: the original), so the acknowledged port is the withdrawn one; after the last round the vector is zero |
| TestArbiter.RunArbitration | AXI-Interconnect/tb/test_arbiter.py:80-103 | the inner while loop yields the outcome Rejection(Grants(request0), grantEncoded, 0) and the drives of all rounds run, one per requested port when it passes |
| TestArbiter.RunTestArbitration | AXI-Interconnect/tb/test_arbiter.py:79-103 | the whole test passes iff every round of every vector grants a requested port; otherwise it stops at the first failing vector and round, every earlier one having passed |
| Bits.BitIsDivision | AXI-Interconnect/tb/test_arbiter.py:52-54 | the bit seen after i shifts (request % 2 of int(request / 2) taken i times) is (request / 2^i) % 2 |
| Bits.DropUnit | AXI-Interconnect/tb/test_arbiter.py:44-47 | remainder plus the multiples of 2^(n+1) is the request with its 2^n unit removed, and never negative |
| Bits.BitsOfSum | AXI-Interconnect/tb/test_arbiter.py:44-47 | the bits of a * 2^n + c with c < 2^n are those of c below n and those of a above |
| Bits.Pow2Bits | AXI-Interconnect/tb/test_arbiter.py:63-64 | 2^m has bit m set and no other |
| Bits.BitImpliesAtLeast | AXI-Interconnect/tb/test_arbiter.py:39-41 | a vector with bit k set is at least 2^k |

## Left out

- The arbiter RTL and the simulator: clock, reset (`cycle_reset`), the
  `RisingEdge` waits and the polling of `grant_valid`. The granted index is a
  parameter of the model, and "wait until valid" is taken to deliver one index
  per round.
- Randomness: `generate_request` is not a function here. Its range
  (`0 <= request < 2^ports`, since numpy's `randint` excludes its upper bound)
  is the `Drawable` predicate. `GrantsBelowPorts` requires it. The
  list of drawn vectors is a parameter of `RunTestArbitration` of any length.
  The testbench always draws 10.
- numpy's 64-bit integers: vectors are unbounded naturals, so `2^ports`
  overflowing int64 for 63 or more ports is not modelled.
- RequestPutdown: Python's true division `int(request / 2**(n+1))` goes
  through a float. The model uses exact floor division, which agrees only
  while the vector is below 2^53.
- GenerateGrants: the same holds for the shift `int(request / 2)`, modelled
  as exact floor division.
- The text of the assertion's error message, the logging, and the
  `TestFactory` / `cocotb_test` runner code.
- The DUT parameters read in `TB.__init__` (round-robin, blocking,
  LSB priority). The oracle does not depend on them.
- RunArbitration: it returns the acknowledge and request that each round
  writes to the arbiter, as a list of drives, rather than assigning signals.
  Two writes are not in that list: the initial `request.value = request`
  before the loop (its value is `request0`) and the `acknowledge.value = 0`
  that opens every round. Signal timing is not captured.
