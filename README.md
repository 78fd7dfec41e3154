# AllDaemonExpirationStrategy

A model of Gradle's composite daemon expiration strategy. It asks its child
expiration strategies, in order, whether the build daemon should expire. It
expires the daemon only if every child would. When that happens, the combined
verdict is immediate if any child's verdict is immediate. It is terminated
only if every child's verdict is terminated. Its reason is the children's
non-null reasons joined with `" and "`.

Files:

- `expiration.dfy` (module `Expiration`): the verdict value
  `DaemonExpirationResult(expired, immediate, terminated, reason)`, with the
  null reason as `None`, and the shared `DoNotExpire` verdict.
- `joiner.dfy` (module `Joiner`): joining possibly-null strings with a
  separator and skipping the nulls. `JoinSkipNulls` filters the nulls with
  `Present` and joins the rest with `Join`.
- `all_daemon_expiration_strategy.dfy` (module `AllExpiration`): the class
  `AllDaemonExpirationStrategy`, whose method `CheckExpiration` is the loop
  of the source. It is proved against the specification function `Combine`
  over the children's verdicts, and the lemmas prove the properties the
  source promises about `Combine`.

Each child strategy is modelled as a total function from the daemon to the
verdict it returns. The daemon is a type parameter that the model never
inspects. `CheckExpiration` also returns how many children it asked
(`consulted`), so the short-circuit can be stated. Its loop invariants tie the
local `immediate`, `terminated` and `reasons` to an OR fold, an AND fold and
the list of reasons over the children asked so far.

The combined verdict with no children comes from the code's fall-through
(the loop does not run, and the still-initial `DO_NOT_EXPIRE` is returned by
the final check). It is not an explicit early return. The model follows the
code. The result is the same either way.

## Model

| member | source | states |
|---|---|---|
| AllExpiration.AllDaemonExpirationStrategy.constructor | subprojects/launcher/src/main/java/org/gradle/launcher/daemon/server/AllDaemonExpirationStrategy.java:29-31 | the strategy keeps the children it is given, in the given order |
| AllExpiration.AllDaemonExpirationStrategy.CheckExpiration | subprojects/launcher/src/main/java/org/gradle/launcher/daemon/server/AllDaemonExpirationStrategy.java:33-59 | the loop's result is the specified combined verdict of the children's outcomes, and it asks exactly the children up to and including the first that keeps the daemon alive (all of them when none does) |
| AllExpiration.FirstKeepAlive | subprojects/launcher/src/main/java/org/gradle/launcher/daemon/server/AllDaemonExpirationStrategy.java:40-46 | the position where the loop stops: every earlier child expires, and the child there (if any) does not |
| AllExpiration.KeepAliveIff | subprojects/launcher/src/main/java/org/gradle/launcher/daemon/server/AllDaemonExpirationStrategy.java:35-55 | the result is the shared do-not-expire verdict if and only if there are no children or some child, at any position, does not expire; it expires if and only if there are children and all of them expire |
| AllExpiration.NoChildrenKeepAlive | subprojects/launcher/src/main/java/org/gradle/launcher/daemon/server/AllDaemonExpirationStrategy.java:34-35 | no children: the daemon does not expire |
| AllExpiration.AllExpireCombined | subprojects/launcher/src/main/java/org/gradle/launcher/daemon/server/AllDaemonExpirationStrategy.java:36-57 | when all of at least one child expire: expired, immediate if and only if some child is immediate, terminated if and only if every child is terminated, reason the non-null reasons joined with " and " |
| AllExpiration.AnyImmediateIffExists | subprojects/launcher/src/main/java/org/gradle/launcher/daemon/server/AllDaemonExpirationStrategy.java:38-48 | the OR fold from false over the immediate flags holds exactly when some child is immediate |
| AllExpiration.AllTerminatedIffForall | subprojects/launcher/src/main/java/org/gradle/launcher/daemon/server/AllDaemonExpirationStrategy.java:37-49 | the AND fold from true over the terminated flags holds exactly when every child is terminated |
| AllExpiration.AllReasonsNullGivesEmpty | subprojects/launcher/src/main/java/org/gradle/launcher/daemon/server/AllDaemonExpirationStrategy.java:50-57 | all children expire and none gives a reason: the combined reason is the empty string, not null |
| AllExpiration.SingleChildPassesThrough | subprojects/launcher/src/main/java/org/gradle/launcher/daemon/server/AllDaemonExpirationStrategy.java:37-57 | one expiring child with a reason: the combined verdict equals that child's verdict, field for field |
| AllExpiration.ConsultedUpToFirstKeepAlive | subprojects/launcher/src/main/java/org/gradle/launcher/daemon/server/AllDaemonExpirationStrategy.java:40-46 | when child k is the first that does not expire, exactly k + 1 children are asked and the later ones are not |
| AllExpiration.ConsultedAllWhenAllExpire | subprojects/launcher/src/main/java/org/gradle/launcher/daemon/server/AllDaemonExpirationStrategy.java:40-52 | when every child expires, every child is asked |
| AllExpiration.ReasonsJoinExample | subprojects/launcher/src/main/java/org/gradle/launcher/daemon/server/AllDaemonExpirationStrategy.java:50-57 | reasons "idle", null and "low memory" combine to "idle and low memory" |
| AllExpiration.ShortCircuitExample | subprojects/launcher/src/main/java/org/gradle/launcher/daemon/server/AllDaemonExpirationStrategy.java:40-46 | expiring, not expiring, expiring: the daemon does not expire, and two children are asked |
| Joiner.Present | subprojects/launcher/src/main/java/org/gradle/launcher/daemon/server/AllDaemonExpirationStrategy.java:57 | skipping nulls keeps exactly the non-null strings and never lengthens the list |
| Joiner.PresentConcat | subprojects/launcher/src/main/java/org/gradle/launcher/daemon/server/AllDaemonExpirationStrategy.java:57 | skipping nulls in a concatenation is the concatenation of skipping nulls in each part, so order is kept |
| Joiner.PresentOfNulls | subprojects/launcher/src/main/java/org/gradle/launcher/daemon/server/AllDaemonExpirationStrategy.java:57 | a list of nulls leaves nothing to join |
| Joiner.JoinConcat | subprojects/launcher/src/main/java/org/gradle/launcher/daemon/server/AllDaemonExpirationStrategy.java:57 | joining two non-empty lists puts exactly one separator between their joins |
| Joiner.JoinAppend | subprojects/launcher/src/main/java/org/gradle/launcher/daemon/server/AllDaemonExpirationStrategy.java:57 | joining agrees with a left-to-right builder that writes the separator only after something has been written |
| Joiner.NullContributesNothing | subprojects/launcher/src/main/java/org/gradle/launcher/daemon/server/AllDaemonExpirationStrategy.java:50-57 | a null reason anywhere in the list adds neither text nor a separator |
| Joiner.SkipNullsAppend | subprojects/launcher/src/main/java/org/gradle/launcher/daemon/server/AllDaemonExpirationStrategy.java:50-57 | adding a non-null reason appends " and " plus that reason, or only the reason when nothing non-null came before |
| Joiner.AllNullsJoinEmpty | subprojects/launcher/src/main/java/org/gradle/launcher/daemon/server/AllDaemonExpirationStrategy.java:57 | only null reasons join to the empty string |
| Joiner.SingleJoinsToItself | subprojects/launcher/src/main/java/org/gradle/launcher/daemon/server/AllDaemonExpirationStrategy.java:57 | a single non-null reason among nulls joins to itself unchanged |

## Left out

- The `Daemon` argument is a type parameter that the model never inspects. The child strategies are modelled as pure total functions of it. Any internal state, side effects or exceptions of a child are not modelled.
- The `DaemonExpirationResult` class is not part of this model. Its 4-argument constructor is modelled as a datatype constructor. `DO_NOT_EXPIRE` is taken to be (not expired, not immediate, not terminated, null reason). The properties depend only on its being not expired and on its being returned as the one shared verdict.
- The Guava `Joiner` and `Lists` internals are not modelled. Only the observable result of `Joiner.on(" and ").skipNulls().join(...)` is specified.
- The children are held as an immutable sequence. The Java field holds the caller's `List` by reference, so a caller that changes that list later would change the children. That aliasing is not modelled.
- Thread safety, reentrancy, the scheduler that polls the check, logging, and how a daemon is actually stopped are not modelled. They are concurrency and plumbing outside the fold.
