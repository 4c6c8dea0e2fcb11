/** Opening the reviews panel: up to three attempts to find and click the
    "View More" button, stopping at the first click that succeeds. */
module ViewMore {

  const MaxAttempts: nat := 3

  /** What one attempt observes: no button on the page, a probe or click
      that raised (the attempt is followed by a pause), or a successful click. */
  datatype Probe = Absent | Threw | Clicked

  /** The number of attempts among the first `n` that raised. */
  function Raised(probe: nat -> Probe, n: nat): (k: nat)
    ensures k <= n
  {
    if n == 0 then 0
    else Raised(probe, n - 1) + (if probe(n - 1) == Threw then 1 else 0)
  }

  /** The attempt loop; `probe(k)` is what attempt `k` observes. Returns how
      many attempts were made, whether the button was clicked and how many
      pauses followed a raised attempt. Running out of attempts is not an
      error: the caller goes on to wait for the reviews panel either way. */
  method OpenPanel(probe: nat -> Probe) returns (attempts: nat, clicked: bool, pauses: nat)
    ensures 1 <= attempts <= MaxAttempts
    ensures forall k | 0 <= k < attempts - 1 :: probe(k) != Clicked
    ensures clicked <==> probe(attempts - 1) == Clicked
    ensures !clicked ==> attempts == MaxAttempts
    ensures pauses == Raised(probe, attempts)
  {
    attempts, clicked, pauses := 0, false, 0;
    while attempts < MaxAttempts
      invariant attempts <= MaxAttempts
      invariant forall k | 0 <= k < attempts :: probe(k) != Clicked
      invariant pauses == Raised(probe, attempts)
    {
      var outcome := probe(attempts);
      attempts := attempts + 1;
      match outcome {
        case Clicked =>
          clicked := true;
          return;
        case Threw =>
          pauses := pauses + 1;
        case Absent =>
      }
    }
  }
}
