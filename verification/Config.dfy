/** Buffer sizes and protocol limits: the POSIX defaults of include/http_server/Config.h. */
module Config {
  const MAX_PATH_LEN: nat := 2048
  const MAX_QUERY_LEN: nat := 512
  const MAX_REQUEST_LEN: nat := 8 * 1024 * 1024
  const VERSION_LEN: nat := 8
  const MAX_HEADERS: nat := 32
  const MAX_HEADER_KEY_LEN: nat := 64
  const MAX_HEADER_VALUE_LEN: nat := 256
  const MAX_BODY_LEN: nat := 1024 * 1000
  const MAX_DECHUNK_SIZE: nat := 16 * 1024
  const RESPONSE_BUFFER_SIZE: nat := 8 * 1024
  const STREAM_CHUNK_SIZE: nat := 4 * 1024
  const MAX_REQUESTS: nat := 100
  const ARENA_SLACK: nat := 8 * 1024
  const CONN_ARENA_SIZE: nat := MAX_REQUEST_LEN + RESPONSE_BUFFER_SIZE + MAX_DECHUNK_SIZE + ARENA_SLACK
  const BUCKETS: nat := 1024
}
