/** The Postfix health reporter (`HealthCheckHandler`, postfix/health_check.py):
    the three checks and their aggregation, the queue statistics of the
    status page, the `/postfix` response and the path dispatch of `do_GET`.
    The `postfix status`, `postqueue -p` and `postfix check` invocations are
    given as their observed outcomes. */
module Health {
  import opened Common
  import opened Text

  /** The text `postqueue -p` prints for an empty queue. */
  const QueueEmptyMarker := "Mail queue is empty"

  /** A queue listing with this many lines or more counts as unhealthy. */
  const QueueLineLimit := 50

  /** The `health_data` dictionary. */
  datatype HealthStatus = HealthStatus(healthy: bool, postfixRunning: bool, queueHealthy: bool, configValid: bool)

  /** The classification of the stripped listing of a `postqueue -p` that
      exited 0: healthy when it says the queue is empty or has fewer than
      QueueLineLimit lines. */
  function QueueListingHealthy(listing: string): (healthy: bool)
    ensures Contains(listing, QueueEmptyMarker) ==> healthy
    ensures |listing| < QueueLineLimit ==> healthy
    ensures !healthy ==> |SplitLines(listing)| >= QueueLineLimit
  {
    Contains(listing, QueueEmptyMarker) || |SplitLines(listing)| < QueueLineLimit
  }

  /** For output whose only line break is `'\n'` (as `postqueue -p` prints),
      the line limit is a newline count: the stripped listing is healthy iff it
      reports an empty queue or holds fewer than 49 newlines. */
  lemma QueueHealthyCountsNewlines(stdout: string)
    requires OnlyNewlineBreaks(stdout)
    ensures var listing := Strip(stdout);
            QueueListingHealthy(listing) <==>
              Contains(listing, QueueEmptyMarker) || multiset(listing)['\n'] < QueueLineLimit - 1
  {
    StrippedLineCount(stdout);
  }

  /** `get_health_status`: every check starts False and stays False when its
      command raises; the overall verdict is the conjunction of the three. */
  method GetHealthStatus(status: Outcome, postqueue: Outcome, check: Outcome) returns (h: HealthStatus)
    ensures h.postfixRunning <==> status.Succeeded()
    ensures h.queueHealthy <==> postqueue.Succeeded() && QueueListingHealthy(Strip(postqueue.stdout))
    ensures h.configValid <==> check.Succeeded()
    ensures h.healthy <==> h.postfixRunning && h.queueHealthy && h.configValid
  {
    h := HealthStatus(false, false, false, false);
    if status.Completed? {
      h := h.(postfixRunning := status.returncode == 0);
    }
    if postqueue.Completed? {
      if postqueue.returncode == 0 {
        var queueOutput := Strip(postqueue.stdout);
        h := h.(queueHealthy := QueueListingHealthy(queueOutput));
      } else {
        h := h.(queueHealthy := false);
      }
    } else {
      h := h.(queueHealthy := false);
    }
    if check.Completed? {
      h := h.(configValid := check.returncode == 0);
    }
    h := h.(healthy := h.postfixRunning && h.queueHealthy && h.configValid);
  }

  /** `metrics['queue_stats']`: left empty when `postqueue` exits non-zero,
      an error entry when it raises, otherwise 'empty' or 'has_messages'
      with a message estimate and the first lines of the listing. */
  datatype QueueStats =
    | NoStats
    | StatsError
    | EmptyQueue
    | HasMessages(totalMessages: nat, sampleOutput: seq<string>)

  /** `metrics['process_info']`, from `postfix status`. */
  datatype ProcessInfo =
    | ProcessError
    | ProcessInfo(statusCommandResult: int, statusOutput: string, running: bool)

  /** The part of `get_postfix_metrics` that does not inspect the file system. */
  datatype PostfixMetrics = PostfixMetrics(queueStats: QueueStats, processInfo: ProcessInfo)

  /** The statistics of the stripped listing of a `postqueue -p` that exited
      0. The estimate is the line count less two header lines, never below
      zero; the sample is at most the first five lines. */
  function ListingStats(listing: string): (s: QueueStats)
    ensures s.EmptyQueue? || s.HasMessages?
    ensures s.EmptyQueue? <==> Contains(listing, QueueEmptyMarker)
    ensures s.HasMessages? ==>
              var lines := SplitLines(listing);
              && s.totalMessages == (if |lines| >= 2 then |lines| - 2 else 0)
              && |s.sampleOutput| == (if |lines| < 5 then |lines| else 5)
              && s.sampleOutput <= lines
  {
    if Contains(listing, QueueEmptyMarker) then EmptyQueue
    else
      var lines := SplitLines(listing);
      HasMessages(if |lines| >= 2 then |lines| - 2 else 0, if |lines| <= 5 then lines else lines[..5])
  }

  /** The healthy/unhealthy verdict and the status page's statistics agree on
      the same listing: a queue is healthy exactly when the listing reports it
      empty or estimates fewer than 48 messages. */
  lemma QueueVerdictMatchesStats(listing: string)
    ensures QueueListingHealthy(listing) <==>
              ListingStats(listing).EmptyQueue? || ListingStats(listing).totalMessages < QueueLineLimit - 2
  {
  }

  /** `get_postfix_metrics` without `config_info`: fills the queue statistics
      and the process information in turn. */
  method GetPostfixMetrics(postqueue: Outcome, status: Outcome) returns (m: PostfixMetrics)
    ensures postqueue.Raised? ==> m.queueStats == StatsError
    ensures postqueue.Completed? && postqueue.returncode != 0 ==> m.queueStats == NoStats
    ensures postqueue.Succeeded() ==> m.queueStats == ListingStats(Strip(postqueue.stdout))
    ensures status.Raised? <==> m.processInfo.ProcessError?
    ensures status.Completed? ==>
              m.processInfo == ProcessInfo(status.returncode, Strip(status.stdout), status.returncode == 0)
  {
    m := PostfixMetrics(NoStats, ProcessError);
    if postqueue.Raised? {
      m := m.(queueStats := StatsError);
    } else if postqueue.returncode == 0 {
      var queueOutput := Strip(postqueue.stdout);
      m := m.(queueStats := ListingStats(queueOutput));
    }
    if status.Completed? {
      var output := if status.stdout != "" then Strip(status.stdout) else "";
      m := m.(processInfo := ProcessInfo(status.returncode, output, status.returncode == 0));
    }
  }

  /** The `checks` object of the `/postfix` response. */
  datatype Checks = Checks(postfixRunning: bool, postfixQueueHealthy: bool, configValid: bool)

  /** An HTTP reply of the handler: the `/postfix` health report, the `/status`
      page, the root descriptor, or an error page. */
  datatype Reply =
    | HealthReply(code: int, status: string, healthy: bool, checks: Checks)
    | StatusReply(health: HealthStatus, metrics: PostfixMetrics)
    | RootReply(service: string, endpoints: seq<string>)
    | ErrorReply(code: int, message: string)
  {
    /** The HTTP status code sent. */
    function StatusCode(): int {
      match this
      case HealthReply(code, _, _, _) => code
      case StatusReply(_, _) => 200
      case RootReply(_, _) => 200
      case ErrorReply(code, _) => code
    }
  }

  /** `handle_health_check` from a computed health status. */
  function HealthCheckReply(h: HealthStatus): (r: Reply)
    ensures r.HealthReply?
    ensures r.code == 200 <==> h.healthy
    ensures r.code == 503 <==> !h.healthy
    ensures r.status == "OK" <==> h.healthy
    ensures r.status == "Service Unavailable" <==> !h.healthy
    ensures r.healthy == h.healthy
    ensures r.checks == Checks(h.postfixRunning, h.queueHealthy, h.configValid)
  {
    var healthy := h.healthy;
    HealthReply(
      if healthy then 200 else 503,
      if healthy then "OK" else "Service Unavailable",
      healthy,
      Checks(h.postfixRunning, h.queueHealthy, h.configValid))
  }

  /** The handler `do_GET` picks for a request path. */
  datatype Route = HealthRoute | StatusRoute | RootRoute | NotFound

  function RouteOf(path: string): (r: Route)
    ensures r == HealthRoute <==> path == "/postfix"
    ensures r == StatusRoute <==> path == "/status"
    ensures r == RootRoute <==> path == "/"
    ensures r == NotFound <==> path !in ["/postfix", "/status", "/"]
  {
    if path == "/postfix" then HealthRoute
    else if path == "/status" then StatusRoute
    else if path == "/" then RootRoute
    else NotFound
  }

  /** The command outcomes one request may observe: the health checks run
      by `get_health_status`, and the second `postqueue -p` and
      `postfix status` run by `get_postfix_metrics` on the status page. */
  datatype Probes = Probes(
    status: Outcome, postqueue: Outcome, check: Outcome,
    metricsPostqueue: Outcome, metricsStatus: Outcome)

  /** `do_GET` on the path part of the request URL. */
  method DoGet(path: string, p: Probes) returns (reply: Reply)
    ensures RouteOf(path) == NotFound <==> reply == ErrorReply(404, "Not Found")
    ensures reply.StatusCode() == 404 <==> RouteOf(path) == NotFound
    ensures reply.StatusCode() == 503 <==>
              path == "/postfix" && !(p.status.Succeeded() && p.check.Succeeded()
                                      && p.postqueue.Succeeded() && QueueListingHealthy(Strip(p.postqueue.stdout)))
    ensures path == "/postfix" ==>
              var running := p.status.Succeeded();
              var queue := p.postqueue.Succeeded() && QueueListingHealthy(Strip(p.postqueue.stdout));
              var config := p.check.Succeeded();
              reply == HealthCheckReply(HealthStatus(running && queue && config, running, queue, config))
    ensures path == "/status" ==> reply.StatusReply? && reply.StatusCode() == 200
    ensures path == "/status" ==>
              var running := p.status.Succeeded();
              var queue := p.postqueue.Succeeded() && QueueListingHealthy(Strip(p.postqueue.stdout));
              var config := p.check.Succeeded();
              reply.health == HealthStatus(running && queue && config, running, queue, config)
    ensures path == "/status" ==>
              var q := p.metricsPostqueue;
              && (q.Raised? ==> reply.metrics.queueStats == StatsError)
              && (q.Completed? && q.returncode != 0 ==> reply.metrics.queueStats == NoStats)
              && (q.Succeeded() ==> reply.metrics.queueStats == ListingStats(Strip(q.stdout)))
    ensures path == "/status" ==>
              var st := p.metricsStatus;
              && (st.Raised? ==> reply.metrics.processInfo == ProcessError)
              && (st.Completed? ==>
                    reply.metrics.processInfo == ProcessInfo(st.returncode, Strip(st.stdout), st.returncode == 0))
    ensures path == "/" ==> reply == RootReply("postfix-health-check", ["/postfix", "/status"])
  {
    match RouteOf(path)
    case HealthRoute =>
      var h := GetHealthStatus(p.status, p.postqueue, p.check);
      reply := HealthCheckReply(h);
    case StatusRoute =>
      var h := GetHealthStatus(p.status, p.postqueue, p.check);
      var m := GetPostfixMetrics(p.metricsPostqueue, p.metricsStatus);
      reply := StatusReply(h, m);
    case RootRoute =>
      reply := RootReply("postfix-health-check", ["/postfix", "/status"]);
    case NotFound =>
      reply := ErrorReply(404, "Not Found");
  }
}
