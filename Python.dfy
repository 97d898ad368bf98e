/** The parts of Python's runtime behaviour that the Prometheus setup helper
    exposes to its callers: the two exceptions it can raise on its own
    (an out-of-range list index and a failed `assert`), and `None`. */
module Python {

  /** Which `assert` statement of the helper failed. */
  datatype Check =
    | PodListNonEmpty       // `assert 0 < len(pod_list)`
    | PodReady              // `assert "1/1" == pod_status`
    | CountsAgree           // `assert AMP_create_experiment_count == prometheus_create_experiment_count`
    | CountIsExpected       // `assert str(expected_value) == prometheus_create_experiment_count`

  datatype Error = IndexError | AssertionError(check: Check)

  /** A Python computation either returns a value or raises. */
  datatype Outcome<T> = Ok(value: T) | Raised(error: Error)

  datatype Option<T> = None | Some(value: T)
}
