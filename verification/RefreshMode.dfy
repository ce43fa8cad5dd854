/** The refresh mode that rendering reports and the daemon schedules by (src/shared/refresh_mode.rs). */
module RefreshModes {

  /** CI is running; ordinary watching; every pull request is merged or closed. */
  datatype RefreshMode = Hot | Warm | Terminal
}
